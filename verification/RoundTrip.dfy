/** Backing a deployment up and restoring it gives the deployment back. */
module RoundTrip {
  import opened Wrappers
  import opened Sequences
  import opened Text
  import opened Filesystem
  import opened Layout
  import opened Copying
  import opened Payloads
  import opened Manifests
  import opened Verification
  import opened Backups
  import opened BackupContents
  import opened Filing
  import opened BackupEffect
  import opened BackupRuns
  import opened Restores
  import opened RestoreEffect
  import opened RestoreRuns

  /** A finished backup directory: a manifest of certain files, and those files. */
  ghost predicate HoldsBackup(env: Env, b: Tree, m: Manifest, files: map<Path, Bytes>) {
    && WellFormed(b) && PlainComponents(b) && [INCOMPLETE] !in b && FileIs(b, [MANIFEST], env.encode(m))
    && ComponentFiles(b) == files && Itemizes(env, m.files, files) && m.formatVersion == FORMAT_VERSION
    && forall path :: path in REQUIRED ==> path in ListedPaths(m)
  }

  lemma ManifestHeader(env: Env, os: System, settings: Settings, data: Tree)
    requires Lawful(os) && WellFormed(data) && ManifestFor(env, os, settings, data).Ok?
    ensures var m := ManifestFor(env, os, settings, data).value;
            && m.formatVersion == FORMAT_VERSION && m.sealingKey == settings.sealingKey
            && forall path :: path in REQUIRED ==> path in ListedPaths(m)
  {
    var m := ManifestFor(env, os, settings, data).value;
    assert REQUIRED[0] in ListedPaths(m) && REQUIRED[1] in ListedPaths(m) && REQUIRED[2] in ListedPaths(m);
  }

  lemma FinishedHolds(env: Env, os: System, settings: Settings, data: Tree, dest: Tree, replace: bool)
    requires Lawful(os) && WellFormed(data) && WellFormed(dest)
    requires Executes(dest, BackupScript(env, os, settings, data, dest, replace))
    ensures Storable(data) && ManifestFor(env, os, settings, data).Ok?
    ensures HoldsBackup(env, After(dest, BackupScript(env, os, settings, data, dest, replace)),
                        ManifestFor(env, os, settings, data).value, Slashed(data))
  {
    BackupPublished(env, os, settings, data, dest, replace);
    CopiedIsTheDeployment(os, data);
    AfterWellFormed(dest, BackupScript(env, os, settings, data, dest, replace));
    ManifestLists(env, os, settings, data);
    ManifestHeader(env, os, settings, data);
    SlashedNamed(data);
  }

  // ------------------------------------------------------ it can be restored

  lemma EntryRestorable(env: Env, b: Tree, m: Manifest, f: BackupFile)
    requires m.formatVersion != 1 && EntryFor(env, ComponentFiles(b), f)
    ensures var c, p := RestoreCopy(env, b, m, f), Split(f.path, '/');
            && Target([], c) == p && IsFile(b, p) && c.path == f.path && c.data == Some(b[p].data) && Acceptable(c)
  {
    var p := Split(f.path, '/');
    assert SourcePath(m, f) == p;
    assert IsFile(b, p) && ComponentFiles(b)[p] == b[p].data;
    assert [] + p == p;
  }

  lemma CopyRestorable(env: Env, b: Tree, m: Manifest, c: Copy)
    requires HoldsBackup(env, b, m, ComponentFiles(b)) && c in RestoreCopies(env, b, m, m.files)
    ensures Acceptable(c) && IsFile(b, Target([], c)) && c.data == Some(b[Target([], c)].data)
    ensures Target([], c) == Split(c.path, '/')
  {
    var i := IndexOf(RestoreCopies(env, b, m, m.files), c);
    assert EntryFor(env, ComponentFiles(b), m.files[i]);
    EntryRestorable(env, b, m, m.files[i]);
  }

  lemma BackupIsRestorable(env: Env, b: Tree, m: Manifest)
    requires HoldsBackup(env, b, m, ComponentFiles(b))
    ensures Restorable(env, b, m) && Unclashing(RestoreCopies(env, b, m, m.files))
  {
    var copies := RestoreCopies(env, b, m, m.files);
    forall c | c in copies ensures Acceptable(c) {
      CopyRestorable(env, b, m, c);
    }
    forall c, d | c in copies && d in copies && Target([], c) <= Target([], d) ensures c.path == d.path {
      CopyRestorable(env, b, m, c);
      CopyRestorable(env, b, m, d);
      FilesAreLeaves(b, Target([], c), Target([], d));
      JoinOfSplit(c.path, '/');
      JoinOfSplit(d.path, '/');
    }
  }

  lemma RestoredIsTheBackup(env: Env, b: Tree, m: Manifest)
    requires HoldsBackup(env, b, m, ComponentFiles(b))
    ensures Restored(env, b, m) == ComponentFiles(b)
  {
    var copies, files := RestoreCopies(env, b, m, m.files), Restored(env, b, m);
    forall p | p in files ensures p in ComponentFiles(b) && files[p] == ComponentFiles(b)[p] {
      var i := CopiedOnly([], copies, p);
      assert EntryFor(env, ComponentFiles(b), m.files[i]);
      EntryRestorable(env, b, m, m.files[i]);
    }
    forall p | p in ComponentFiles(b) ensures p in files {
      assert HasEntry(m.files, p);
      var f :| f in m.files && f.path == Join(p, '/');
      var i := IndexOf(m.files, f);
      assert EntryFor(env, ComponentFiles(b), f);
      EntryRestorable(env, b, m, f);
      CopiedHas([], copies, i);
      PathSplits(p);
    }
  }

  lemma PathSplits(p: Path)
    requires p != [] && ValidPath(p)
    ensures Split(Join(p, '/'), '/') == p
  {
    forall part | part in p ensures '/' !in part {
      assert ValidName(part);
    }
    SplitOfJoin(p, '/');
  }

  // ------------------------------------------------------------- it verifies

  /** What the operator brings to both commands: readable versions and the right key. */
  ghost predicate Readable(env: Env, settings: Settings, data: Tree, m: Manifest) {
    && m.storageVersion <= SUPPORTED_STORAGE_FORMAT && m.schemaVersion <= SCHEMA_VERSION
    && |env.encode(m)| <= MAXIMUM_MANIFEST_BYTES
    && (m.encrypted ==>
          && settings.masterKey.Some? && IsFile(data, ENCRYPTION_RECORD)
          && env.keyRecord(data[ENCRYPTION_RECORD].data).Some?
          && env.keyRecord(data[ENCRYPTION_RECORD].data) == env.keyReference(settings.masterKey.value))
  }

  /** A file directly inside a component is in the backup as it is in the deployment. */
  lemma SameTopFile(data: Tree, b: Tree, p: Path)
    requires Storable(data) && ComponentFiles(b) == Slashed(data)
    requires |p| == 2 && InComponent(p) && PlainPath(p)
    ensures IsFile(b, p) <==> IsFile(data, p)
    ensures IsFile(b, p) ==> b[p] == data[p]
  {
    TopFilesAreLive(data, p);
    assert IsFile(b, p) <==> p in ComponentFiles(b);
    assert IsFile(data, p) <==> p in LiveFiles(data);
    if IsFile(b, p) {
      assert ComponentFiles(b)[p] == LiveFiles(data)[p];
    }
  }

  /** The backup passes verification at the checksums level, under the same key. */
  lemma BackupVerifies(env: Env, settings: Settings, data: Tree, b: Tree, m: Manifest)
    requires Honest(env) && Storable(data) && HoldsBackup(env, b, m, Slashed(data)) && Readable(env, settings, data, m)
    ensures ReadManifest(env, b) == Ok(m)
    ensures Usable(env, b, Checksums, settings.masterKey)
  {
    BackupChecksOut(env, data, b, m);
    KeyStillMatches(env, settings, data, b, m);
    assert env.decode(env.encode(m)) == Some(m);
  }

  /** Short of versions and keys there is nothing wrong with a finished backup. */
  lemma BackupChecksOut(env: Env, data: Tree, b: Tree, m: Manifest)
    requires Storable(data) && HoldsBackup(env, b, m, Slashed(data))
    ensures Structured(m) <==> m.storageVersion <= SUPPORTED_STORAGE_FORMAT && m.schemaVersion <= SCHEMA_VERSION
    ensures Structured(m) ==> Checksummed(env, b, m)
  {
    assert forall f :: f in m.files ==> EntryFor(env, Slashed(data), f);
    assert Named(Slashed(data)) by {
      assert forall p :: p in ComponentFiles(b) ==> p in b && p != [];
    }
    ItemizesTheInventory(env, m, Slashed(data));
    AllPlain(b);
    if Structured(m) {
      ChecksumsAreExact(env, b, m);
    }
  }

  lemma ItemizesTheInventory(env: Env, m: Manifest, files: map<Path, Bytes>)
    requires Itemizes(env, m.files, files) && Named(files)
    ensures EntriesOf(m) == InventoryOf(env, files)
  {
    forall e | e in EntriesOf(m) ensures e in InventoryOf(env, files) {
      var f :| f in m.files && e == (f.path, f.size, f.sha256);
      assert EntryFor(env, files, f);
    }
    forall e | e in InventoryOf(env, files) ensures e in EntriesOf(m) {
      var p :| p in files && e == (Join(p, '/'), Size(files[p]), env.digest(files[p]));
      assert HasEntry(m.files, p);
      var f :| f in m.files && f.path == Join(p, '/');
      assert EntryFor(env, files, f);
      PathSplits(p);
    }
  }

  lemma KeyStillMatches(env: Env, settings: Settings, data: Tree, b: Tree, m: Manifest)
    requires Storable(data) && ComponentFiles(b) == Slashed(data) && Readable(env, settings, data, m)
    ensures KeyConfirmed(env, b, m, settings.masterKey)
  {
    RecordIsPlain();
    SameTopFile(data, b, ENCRYPTION_RECORD);
  }

  /** A file without backslashes in its name is in the backup, as it is. */
  lemma PlainIsKept(data: Tree, b: Tree, p: Path)
    requires Storable(data) && ComponentFiles(b) == Slashed(data) && p in LiveFiles(data) && PlainPath(p)
    ensures IsFile(b, p) && b[p] == data[p]
  {
    PlainIsFiledAsIs(data, p);
    StoredIsAcceptable(data, p);
    assert p in ComponentFiles(b) && ComponentFiles(b)[p] == data[p].data;
  }

  lemma {:induction false} HexIsPlain(n: nat, k: nat)
    ensures '\\' !in Hex(n, k)
  {
    if k > 0 {
      HexIsPlain(n / 16, k - 1);
      assert HEX[n % 16] in HEX;
    }
  }

  lemma ShardIsPlain(id: ObjectId)
    ensures PlainPath(ShardOf(Encoded(id)))
  {
    HexIsPlain(id, 32);
    assert '\\' !in OBJECTS;
  }

  lemma ShardIsLive(data: Tree, id: ObjectId)
    requires Present(data, id)
    ensures ShardOf(Encoded(id)) in LiveFiles(data)
  {
    var p := ShardOf(Encoded(id));
    assert p[0] == OBJECTS && |p[1]| == 2 && |"tmp"| == 3;
  }

  lemma PayloadStillPresent(data: Tree, b: Tree, id: ObjectId)
    requires Storable(data) && ComponentFiles(b) == Slashed(data) && Present(data, id)
    ensures Present(b, id)
  {
    ShardIsPlain(id);
    ShardIsLive(data, id);
    PlainIsKept(data, b, ShardOf(Encoded(id)));
  }

  lemma ObjectsIsNoFile(data: Tree, b: Tree)
    requires Storable(data) && ComponentFiles(b) == Slashed(data)
    ensures !IsFile(b, [OBJECTS])
  {
    SlashedNamed(data);
    assert |[OBJECTS]| == 1 && InComponent([OBJECTS]);
    assert [OBJECTS] !in ComponentFiles(b);
  }

  /** Every payload the deployment's catalog references is in place. */
  lemma PayloadsStillPresent(env: Env, data: Tree, b: Tree)
    requires Storable(data) && ComponentFiles(b) == Slashed(data) && PayloadsPresent(env, data)
    ensures PayloadsPresent(env, b)
  {
    RequiredSplit();
    SameTopFile(data, b, CATALOG);
    ObjectsIsNoFile(data, b);
    forall id | id in References(env.references(b[CATALOG].data).value) ensures Present(b, id) {
      PayloadStillPresent(data, b, id);
    }
  }

  /**
   * The round trip.  A deployment a backup can hold, with readable versions and
   * the right key, is backed up into a destination that is absent, empty or an
   * unfinished attempt to be replaced.  That directory passes verification (at
   * the full level too, when the deployment's own catalog is in order), and a
   * restore of it, into a data directory that is absent, has empty components
   * or was left by an interrupted restore, runs to its end and brings back every
   * file the backup copied, byte for byte: under its own name, with any backslash
   * in it read as a separator.
   */
  lemma RoundTrip(env: Env, os: System, settings: Settings, data: Tree, dest: Tree, replace: bool, m: Manifest,
                  os': System, t: Tree, staging: string, note: Bytes)
    requires Honest(env) && Lawful(os) && Lawful(os') && Storable(data) && Ready(t, staging)
    requires WellFormed(dest) && Accepted(dest, replace) && SpaceSuffices(os, settings, data)
    requires ManifestFor(env, os, settings, data) == Ok(m) && Readable(env, settings, data, m)
    ensures Executes(dest, BackupScript(env, os, settings, data, dest, replace))
    ensures var b := After(dest, BackupScript(env, os, settings, data, dest, replace));
            && RestoreAdmitted(env, b, Checksums, settings)
            && (PayloadsPresent(env, data) ==> RestoreAdmitted(env, b, Full, settings))
            && ReadManifest(env, b) == Ok(m)
            && Executes(t, RestoreScript(env, os', t, b, m, staging, note))
            && ComponentFiles(After(t, RestoreScript(env, os', t, b, m, staging, note))) == Slashed(data)
            && (Slashed(data) == LiveFiles(data) <==> PlainLive(data))
  {
    BackupGoesThrough(env, os, settings, data, dest, replace);
    FinishedHolds(env, os, settings, data, dest, replace);
    ManifestHeader(env, os, settings, data);
    RestoreOfBackup(env, settings, data, m, After(dest, BackupScript(env, os, settings, data, dest, replace)),
                    os', t, staging, note);
    SlashedIsLiveExactly(data);
  }

  lemma RestoreOfBackup(env: Env, settings: Settings, data: Tree, m: Manifest, b: Tree,
                        os: System, t: Tree, staging: string, note: Bytes)
    requires Honest(env) && Lawful(os) && Storable(data) && Ready(t, staging)
    requires HoldsBackup(env, b, m, Slashed(data))
    requires Readable(env, settings, data, m) && m.sealingKey == settings.sealingKey
    ensures RestoreAdmitted(env, b, Checksums, settings)
    ensures PayloadsPresent(env, data) ==> RestoreAdmitted(env, b, Full, settings)
    ensures ReadManifest(env, b) == Ok(m)
    ensures Executes(t, RestoreScript(env, os, t, b, m, staging, note))
    ensures ComponentFiles(After(t, RestoreScript(env, os, t, b, m, staging, note))) == Slashed(data)
  {
    BackupVerifies(env, settings, data, b, m);
    BackupIsRestorable(env, b, m);
    RestoredIsTheBackup(env, b, m);
    RestoreGoesThrough(env, os, t, b, m, staging, note);
    if PayloadsPresent(env, data) {
      PayloadsStillPresent(env, data, b);
    }
  }

  // ------------------------------------------------------- exactly when it holds

  /**
   * Whenever both commands finish, from and into whatever directories, the files
   * given back are the deployment's with every backslash read as a separator, and
   * so they are the live files exactly when no live file has one in its name.
   */
  lemma RoundTripExactly(env: Env, os: System, settings: Settings, data: Tree, dest: Tree, replace: bool, m: Manifest,
                         os': System, t: Tree, staging: string, note: Bytes)
    requires Lawful(os) && Lawful(os') && WellFormed(data) && WellFormed(dest)
    requires WellFormed(t) && IsStagingName(staging)
    requires Executes(dest, BackupScript(env, os, settings, data, dest, replace))
    requires ManifestFor(env, os, settings, data) == Ok(m)
    requires var b := After(dest, BackupScript(env, os, settings, data, dest, replace));
             Executes(t, RestoreScript(env, os', t, b, m, staging, note))
    ensures Storable(data)
    ensures var b := After(dest, BackupScript(env, os, settings, data, dest, replace));
            var files := ComponentFiles(After(t, RestoreScript(env, os', t, b, m, staging, note)));
            files == Slashed(data) && (files == LiveFiles(data) <==> PlainLive(data))
  {
    var b := After(dest, BackupScript(env, os, settings, data, dest, replace));
    RestoreCompleted(env, os', t, b, m, staging, note);
    FinishedHolds(env, os, settings, data, dest, replace);
    RestoredIsTheBackup(env, b, m);
    SlashedIsLiveExactly(data);
  }
}
