/** Writing a coordinated backup of a stopped deployment. */
module Backups {
  import opened Wrappers
  import opened Text
  import opened Filesystem
  import opened Walking
  import opened Layout
  import opened Copying
  import opened Payloads
  import opened Manifests

  /** What the configuration, the clock and the destination's file system contribute. */
  datatype Settings = Settings(
    masterKey: Option<Bytes>,
    sealingKey: Option<string>,
    now: nat,
    available: nat)

  // ------------------------------------------------------------ what is copied

  /** A file's place inside its component, with forward slashes. */
  function RelativeName(p: Path): string {
    if |p| < 2 then "" else Replace(Join(p[1..], '/'), '\\', '/')
  }

  predicate Skipped(p: Path) {
    p != [] && p[0] == OBJECTS && StartsWith(RelativeName(p), "tmp/")
  }

  function CopyOf(data: Tree, p: Path): Copy
    requires IsFile(data, p) && p != []
  {
    Copy(p[0] + "/" + RelativeName(p), Some(data[p].data), true)
  }

  function CopiesOf(data: Tree, files: seq<Path>): seq<Copy>
    requires forall p :: p in files ==> IsFile(data, p) && p != []
  {
    if files == [] then []
    else
      assert files[0] in files && forall p :: p in files[1..] ==> p in files;
      (if Skipped(files[0]) then [] else [CopyOf(data, files[0])]) + CopiesOf(data, files[1..])
  }

  function ComponentCopies(os: System, data: Tree, component: string): seq<Copy>
    requires Lawful(os) && WellFormed(data)
  {
    WalkFilesIsComplete(os, data, [component]);
    match WalkFiles(os, data, [component])
    case None => []
    case Some(files) => CopiesOf(data, files)
  }

  function AllCopies(os: System, data: Tree, components: seq<string>): seq<Copy>
    requires Lawful(os) && WellFormed(data)
  {
    if components == [] then []
    else ComponentCopies(os, data, components[0]) + AllCopies(os, data, components[1..])
  }

  function Ascii(s: string): Bytes {
    seq(|s|, i requires 0 <= i < |s| => (s[i] as int % 256) as Byte)
  }

  // --------------------------------------------------------------- the script

  const EMPTY: Tree := map[[] := Dir]

  predicate Complete(t: Tree) {
    IsFile(t, [MANIFEST]) && [INCOMPLETE] !in t
  }

  function PrepareOps(os: System, dest: Tree, replace: bool): seq<Op> {
    if [] !in dest then [MakeDirs([])]
    else if dest[[]].File? then [Stop]
    else if Childless(dest, []) then []
    else if !Complete(dest) && [INCOMPLETE] in dest && replace then Unlinks(os.removal(dest, [])) + [MakeDirs([])]
    else [Stop]
  }

  function ComponentOps(os: System, data: Tree, component: string): seq<Op>
    requires Lawful(os) && WellFormed(data)
  {
    [MakeDirs([component])] + TreeOps(os, data, component)
  }

  function TreeOps(os: System, data: Tree, component: string): seq<Op>
    requires Lawful(os) && WellFormed(data)
  {
    Guard(WalkFiles(os, data, [component]).Some?) + CopyAllOps(os, [], ComponentCopies(os, data, component))
  }

  function ComponentsOps(os: System, data: Tree, components: seq<string>): seq<Op>
    requires Lawful(os) && WellFormed(data)
  {
    if components == [] then []
    else ComponentOps(os, data, components[0]) + ComponentsOps(os, data, components[1..])
  }

  /** Saturating sum of the sizes of some files. */
  function Measured(data: Tree, files: seq<Path>): nat
    requires forall p :: p in files ==> IsFile(data, p)
  {
    if files == [] then 0
    else
      var last := files[|files| - 1];
      assert last in files && IsFile(data, last);
      SaturatingAdd(Measured(data, files[..|files| - 1]), Size(data[last].data))
  }

  function RequiredBytes(os: System, data: Tree, components: seq<string>): Option<nat>
    requires Lawful(os) && WellFormed(data)
  {
    if components == [] then Some(0)
    else
      var last := components[|components| - 1];
      var before := RequiredBytes(os, data, components[..|components| - 1]);
      WalkFilesIsComplete(os, data, [last]);
      var files := WalkFiles(os, data, [last]);
      if before.None? || files.None? then None
      else Some(SaturatingAdd(before.value, Measured(data, files.value)))
  }

  const MARGIN_PERCENT: nat := 5

  function Needed(required: nat): nat {
    SaturatingAdd(required, required / 100 * MARGIN_PERCENT)
  }

  predicate SpaceSuffices(os: System, settings: Settings, data: Tree)
    requires Lawful(os) && WellFormed(data)
  {
    var required := RequiredBytes(os, data, COMPONENTS);
    required.Some? && Needed(required.value) <= settings.available
  }

  function FileOf(env: Env, c: Copy): BackupFile {
    if c.data.None? then BackupFile(c.path, 0, "") else BackupFile(c.path, Size(c.data.value), env.digest(c.data.value))
  }

  function FilesOf(env: Env, copies: seq<Copy>): seq<BackupFile> {
    if copies == [] then [] else [FileOf(env, copies[0])] + FilesOf(env, copies[1..])
  }

  function SaturatingSum(files: seq<BackupFile>): nat {
    if files == [] then 0
    else SaturatingAdd(SaturatingSum(files[..|files| - 1]), files[|files| - 1].size)
  }

  function ComponentEntry(env: Env, os: System, data: Tree, component: string): BackupComponent
    requires Lawful(os) && WellFormed(data)
  {
    var files := FilesOf(env, ComponentCopies(os, data, component));
    BackupComponent(component, component != OBJECTS, Saturate(|files|), SaturatingSum(files))
  }

  function ComponentEntries(env: Env, os: System, data: Tree, components: seq<string>): seq<BackupComponent>
    requires Lawful(os) && WellFormed(data)
  {
    seq(|components|, i requires 0 <= i < |components| => ComponentEntry(env, os, data, components[i]))
  }

  /** A manifest of copied files: the versions are read back from the copies. */
  function Assembled(env: Env, settings: Settings, copied: map<Path, Bytes>, files: seq<BackupFile>,
                     components: seq<BackupComponent>): Result<Manifest, Failure> {
    var listed := set f | f in files :: f.path;
    if REQUIRED[0] !in listed then Err(MissingComponent(REQUIRED[0]))
    else if REQUIRED[1] !in listed then Err(MissingComponent(REQUIRED[1]))
    else if REQUIRED[2] !in listed then Err(MissingComponent(REQUIRED[2]))
    else
      var storage := if STORAGE_FORMAT in copied then env.storageFormat(copied[STORAGE_FORMAT]) else None;
      var schema := if CATALOG in copied then env.schemaVersion(copied[CATALOG]) else None;
      if storage.None? || settings.sealingKey.None? then Err(BadRecord)
      else
        Ok(Manifest(FORMAT_VERSION, if schema.Some? then schema.value else SCHEMA_VERSION, storage.value,
                    settings.now, ENCRYPTION_RECORD in copied, settings.sealingKey, components, files,
                    TotalBytes(files)))
  }

  /** The manifest, or the reason none is published. */
  function ManifestFor(env: Env, os: System, settings: Settings, data: Tree): Result<Manifest, Failure>
    requires Lawful(os) && WellFormed(data)
  {
    var copies := AllCopies(os, data, COMPONENTS);
    Assembled(env, settings, Copied([], copies), Sorted(FilesOf(env, copies)),
              ComponentEntries(env, os, data, COMPONENTS))
  }

  /** What the marker says; nothing turns on its words. */
  const INCOMPLETE_NOTE: Bytes := Ascii("unfinished\n")

  function PublishOps(env: Env, os: System, settings: Settings, data: Tree): seq<Op>
    requires Lawful(os) && WellFormed(data)
  {
    match ManifestFor(env, os, settings, data)
    case Err(_) => [Stop]
    case Ok(m) => WriteOps(os, [MANIFEST], env.encode(m)) + [Unlink([INCOMPLETE])]
  }

  function CopyPhase(os: System, settings: Settings, data: Tree): seq<Op>
    requires Lawful(os) && WellFormed(data)
  {
    Guard(SpaceSuffices(os, settings, data))
    + WriteOps(os, [INCOMPLETE], INCOMPLETE_NOTE)
    + ComponentsOps(os, data, COMPONENTS)
  }

  /** Everything a backup does to its destination, in order. */
  function BackupScript(env: Env, os: System, settings: Settings, data: Tree, dest: Tree, replace: bool): seq<Op>
    requires Lawful(os) && WellFormed(data)
  {
    PrepareOps(os, dest, replace) + (CopyPhase(os, settings, data) + PublishOps(env, os, settings, data))
  }

  /** What must hold of the data directory before anything is written. */
  predicate BackupAdmitted(data: Tree) {
    [] in data && [RESTORE_MARKER] !in data && IsFile(data, STORAGE_FORMAT)
  }
}
