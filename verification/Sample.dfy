/**
 * One small deployment, spelled out: what the other modules say can happen
 * happens to it.
 */
module Sample {
  import opened Wrappers
  import opened Sequences
  import opened Text
  import opened Filesystem
  import opened Layout
  import opened Manifests
  import opened Verification
  import opened Backups
  import opened BackupContents
  import opened Filing
  import opened BackupRuns
  import opened Restores
  import opened RestoreEffect
  import opened RestoreRuns
  import opened RestoreRetries
  import opened RestoreResumes
  import opened RoundTrip
  import opened LegacyRestore
  import opened LegacyRuns
  import opened LegacyBackups
  import opened Leftovers
  import opened Deployment
  import opened DeploymentRuns
  import opened RunBuilding
  import opened LookingComplete
  import opened MixedStart
  import opened Environments

  /** The required files, and one object whose name has a backslash in it. */
  const OBJECT: Path := [OBJECTS, "a\\b"]

  const DATA: Tree := map[
    [] := Dir, [METADATA] := Dir, [SYSTEM] := Dir, [OBJECTS] := Dir,
    CATALOG := File([1]), CREDENTIALS := File([2]), STORAGE_FORMAT := File([3]), OBJECT := File([4])]

  /** Where the object ends up. */
  const PLACE: Path := [OBJECTS, "a", "b"]

  lemma NamesApart()
    ensures CATALOG != CREDENTIALS && CATALOG != STORAGE_FORMAT && CREDENTIALS != STORAGE_FORMAT
    ensures OBJECT != CATALOG && OBJECT != CREDENTIALS && OBJECT != STORAGE_FORMAT
    ensures CATALOG[0] == CREDENTIALS[0] == METADATA && STORAGE_FORMAT[0] == SYSTEM && OBJECT[0] == OBJECTS
  {
    NamesDiffer();
    assert CATALOG[1][1] == 'a' && CREDENTIALS[1][1] == 'r';
  }

  /** The files of the deployment, by what it does with `f`. */
  predicate IsSampleFile(p: Path) {
    p == CATALOG || p == CREDENTIALS || p == STORAGE_FORMAT || p == OBJECT
  }

  lemma SampleNames()
    ensures ValidPath(CATALOG) && ValidPath(CREDENTIALS) && ValidPath(STORAGE_FORMAT) && ValidPath(OBJECT)
  {
    ComponentNamesArePlain();
    assert ValidName("catalog.redb") && ValidName("credentials.redb");
    assert ValidName("storage-format.json") && ValidName("a\\b");
  }

  predicate IsSampleDir(p: Path) {
    p == [] || p == [METADATA] || p == [SYSTEM] || p == [OBJECTS]
  }

  lemma SampleEntries()
    ensures forall p :: p in DATA <==> IsSampleDir(p) || IsSampleFile(p)
    ensures forall p :: IsSampleFile(p) ==> DATA[p].File?
    ensures forall p :: IsSampleDir(p) ==> DATA[p].Dir?
  {
    NamesApart();
  }

  lemma SampleFiles()
    ensures forall p :: IsFile(DATA, p) <==> IsSampleFile(p)
    ensures forall p :: IsSampleFile(p) ==> InComponent(p) && |p| == 2 && ValidPath(p)
  {
    SampleEntries();
    NamesApart();
    SampleNames();
    assert forall p :: IsSampleDir(p) ==> |p| < 2;
  }

  lemma SampleParent(p: Path)
    requires p in DATA
    ensures ValidPath(p) && (p != [] ==> IsDir(DATA, Parent(p)))
  {
    SampleEntries();
    SampleFiles();
    ComponentNamesArePlain();
    if IsSampleFile(p) {
      assert Parent(p) == [p[0]] && IsSampleDir([p[0]]);
    } else if p != [] {
      assert Parent(p) == [] && IsSampleDir([]);
    }
  }

  lemma SampleIsWellFormed()
    ensures WellFormed(DATA) && Walkable(DATA)
  {
    forall p | p in DATA ensures ValidPath(p) && (p != [] ==> IsDir(DATA, Parent(p))) {
      SampleParent(p);
    }
    SampleFiles();
  }

  // ------------------------------------------------------------ how it is filed

  lemma {:induction false} ShortEnough(s: string)
    ensures ByteLength(s) <= 4 * |s|
  {
    if s != "" {
      ShortEnough(s[1..]);
    }
  }

  lemma ObjectName()
    ensures RelativeName(OBJECT) == "a/b" && !Skipped(OBJECT)
  {
    assert OBJECT[1..] == ["a\\b"];
    assert Join(OBJECT[1..], '/') == "a\\b";
    assert RelativeName(OBJECT) == "a/b";
    assert "a/b"[0] != "tmp/"[0];
  }

  lemma ObjectPlace()
    ensures Filed(OBJECT) == PLACE
  {
    ObjectName();
    assert OBJECT[0] + "/" + "a/b" == OBJECTS + ['/'] + "a/b" && "a/b" == "a" + ['/'] + "b";
    SplitPart(OBJECTS, "a/b", '/');
    SplitPart("a", "b", '/');
    SplitWhole("b", '/');
  }

  lemma ObjectIsSafe()
    ensures SafeRelativePath(OBJECT[0] + "/" + RelativeName(OBJECT))
  {
    ObjectName();
    ObjectPlace();
    var path := OBJECT[0] + "/" + RelativeName(OBJECT);
    ShortEnough(path);
    assert |path| == 11 && path[0] == 'o';
    forall i | 1 <= i < |PLACE| ensures SafeSegment(PLACE[i]) {
    }
  }

  lemma PlainFiled(p: Path)
    requires p == CATALOG || p == CREDENTIALS || p == STORAGE_FORMAT
    ensures Stored(DATA, p) && Filed(p) == p && SafeRelativePath(p[0] + "/" + RelativeName(p))
  {
    SampleFiles();
    SampleIsWellFormed();
    RequiredSplit();
    PlainIsFiledAsIs(DATA, p);
    assert p in LiveFiles(DATA);
    ShortEnough(Join(p, '/'));
  }

  /** Each file's place; distinct files have places apart. */
  lemma SampleFiled(p: Path)
    requires Stored(DATA, p)
    ensures SafeRelativePath(p[0] + "/" + RelativeName(p)) && Filed(p) == if p == OBJECT then PLACE else p
  {
    SampleFiles();
    if p == OBJECT {
      ObjectPlace();
      ObjectIsSafe();
    } else {
      PlainFiled(p);
    }
  }

  lemma PlacesApart(p: Path, q: Path)
    requires IsSampleFile(p) && IsSampleFile(q)
    requires (if p == OBJECT then PLACE else p) <= (if q == OBJECT then PLACE else q)
    ensures p == q
  {
    NamesApart();
    NamesDiffer();
  }

  lemma SampleIsStorable()
    ensures Storable(DATA)
  {
    SampleIsWellFormed();
    SampleFiles();
    forall p | Stored(DATA, p)
      ensures SafeRelativePath(p[0] + "/" + RelativeName(p)) && Filed(p) == if p == OBJECT then PLACE else p
    {
      SampleFiled(p);
    }
    forall p, q | Stored(DATA, p) && Stored(DATA, q) && Filed(p) <= Filed(q) ensures p == q {
      PlacesApart(p, q);
    }
  }

  /** What a backup of the sample holds: the object lies elsewhere. */
  const HELD: map<Path, Bytes> := map[CATALOG := [1], CREDENTIALS := [2], STORAGE_FORMAT := [3], PLACE := [4]]

  lemma SampleContents()
    ensures FileAt(DATA, CATALOG) == Some([1]) && FileAt(DATA, CREDENTIALS) == Some([2])
    ensures FileAt(DATA, STORAGE_FORMAT) == Some([3]) && FileAt(DATA, OBJECT) == Some([4])
  {
    NamesApart();
  }

  lemma HeldContents()
    ensures Lookup(HELD, CATALOG) == Some([1]) && Lookup(HELD, CREDENTIALS) == Some([2])
    ensures Lookup(HELD, STORAGE_FORMAT) == Some([3]) && Lookup(HELD, PLACE) == Some([4])
  {
    NamesApart();
  }

  lemma HeldAt(p: Path)
    requires Stored(DATA, p)
    ensures Filed(p) in HELD && HELD[Filed(p)] == DATA[p].data
  {
    SampleFiled(p);
    SampleFiles();
    SampleContents();
    HeldContents();
  }

  lemma StoredAt(q: Path) returns (p: Path)
    requires q in HELD
    ensures Stored(DATA, p) && Filed(p) == q
  {
    if q == PLACE {
      p := OBJECT;
      SampleFiles();
      ObjectName();
      ObjectPlace();
    } else {
      p := q;
      PlainFiled(p);
    }
  }

  lemma SampleSlashed()
    ensures Storable(DATA) && Slashed(DATA) == HELD
  {
    SampleIsStorable();
    forall q | q in Slashed(DATA) ensures q in HELD && HELD[q] == Slashed(DATA)[q] {
      var p := FiledFrom(DATA, q);
      HeldAt(p);
    }
    forall q | q in HELD ensures q in Slashed(DATA) {
      var p := StoredAt(q);
      StoredIsAcceptable(DATA, p);
    }
    SameMaps(HELD, Slashed(DATA));
  }

  // ----------------------------------------------------------- what happens to it

  lemma LiveExactly()
    ensures forall p :: p in LiveFiles(DATA) <==> IsSampleFile(p)
  {
    SampleFiles();
  }

  lemma RecordIsNotThere()
    ensures !IsSampleFile(ENCRYPTION_RECORD)
  {
    NamesDiffer();
    assert ENCRYPTION_RECORD[1][0] == 'o' && STORAGE_FORMAT[1][0] == 's';
  }

  lemma SampleIsLive()
    ensures ENCRYPTION_RECORD !in LiveFiles(DATA)
    ensures forall path :: path in REQUIRED ==> Split(path, '/') in LiveFiles(DATA)
  {
    LiveExactly();
    RecordIsNotThere();
    RequiredSplit();
    assert IsSampleFile(CATALOG) && IsSampleFile(CREDENTIALS) && IsSampleFile(STORAGE_FORMAT);
  }

  lemma MarkerIsNotThere()
    ensures [RESTORE_MARKER] !in DATA
  {
    NamesDiffer();
    SampleEntries();
    assert [RESTORE_MARKER][0] == RESTORE_MARKER && |[RESTORE_MARKER]| == 1;
  }

  lemma SampleIsAdmitted()
    ensures BackupAdmitted(DATA)
  {
    MarkerIsNotThere();
    SampleFiles();
    SampleEntries();
    assert IsSampleDir([]) && IsSampleFile(STORAGE_FORMAT);
  }

  /** The surroundings the sample is backed up in. */
  lemma SampleSetting() returns (env: Env, os: System, m: Manifest)
    ensures Honest(env) && Lawful(os) && Storable(DATA) && SpaceSuffices(os, SETTINGS, DATA) && BackupAdmitted(DATA)
    ensures ManifestFor(env, os, SETTINGS, DATA) == Ok(m) && !m.encrypted && Readable(env, SETTINGS, DATA, m)
    ensures ReadsSample(env)
  {
    Consistency.SomeSystemIsLawful();
    os :| Lawful(os);
    SampleSlashed();
    SampleIsLive();
    SampleIsAdmitted();
    env, m := EnvironmentFor(os, DATA);
  }

  const NONE: Tree := map[]
  const STAGING := ".restore-0"

  lemma NothingIsReady()
    ensures WellFormed(NONE) && Accepted(NONE, false) && Ready(NONE, STAGING)
  {
    assert IsStagingName(STAGING) && ValidName(STAGING);
  }

  /** The sample backed up into a new directory and restored into another: the object has moved. */
  lemma SampleRoundTrip() returns (env: Env, os: System, m: Manifest, backup: Tree, restored: Tree)
    ensures Honest(env) && Lawful(os) && WellFormed(DATA) && ManifestFor(env, os, SETTINGS, DATA) == Ok(m)
    ensures var script := BackupScript(env, os, SETTINGS, DATA, NONE, false);
            Executes(NONE, script) && backup == After(NONE, script) && ReadManifest(env, backup) == Ok(m)
    ensures var script := RestoreScript(env, os, NONE, backup, m, STAGING, []);
            Executes(NONE, script) && restored == After(NONE, script)
    ensures ComponentFiles(restored) == HELD && ComponentFiles(restored) != LiveFiles(DATA)
    ensures OBJECT in LiveFiles(DATA) && OBJECT !in HELD && PLACE in HELD && PLACE !in LiveFiles(DATA)
    ensures RestoreAdmitted(env, backup, Checksums, SETTINGS)
  {
    env, os, m := SampleSetting();
    SampleSlashed();
    NothingIsReady();
    RoundTrip.RoundTrip(env, os, SETTINGS, DATA, NONE, false, m, os, NONE, STAGING, []);
    backup := After(NONE, BackupScript(env, os, SETTINGS, DATA, NONE, false));
    restored := After(NONE, RestoreScript(env, os, NONE, backup, m, STAGING, []));
    ObjectHasMoved();
  }

  lemma ObjectHasMoved()
    ensures OBJECT in LiveFiles(DATA) && OBJECT !in HELD && PLACE in HELD && PLACE !in LiveFiles(DATA)
  {
    LiveExactly();
    ObjectIsNotHeld();
    assert IsSampleFile(OBJECT);
    assert |PLACE| == 3 && forall p :: IsSampleFile(p) ==> |p| == 2;
  }

  lemma ObjectIsNotHeld()
    ensures OBJECT !in HELD && PLACE in HELD
  {
    NamesApart();
    assert |OBJECT| == 2 && |PLACE| == 3;
  }

  /** The backup of the sample, ready to be restored. */
  lemma SampleBackup() returns (env: Env, os: System, m: Manifest, backup: Tree)
    ensures Honest(env) && Lawful(os) && RestoreAdmitted(env, backup, Checksums, SETTINGS)
    ensures ReadManifest(env, backup) == Ok(m) && Restorable(env, backup, m)
    ensures Unclashing(RestoreCopies(env, backup, m, m.files)) && Restored(env, backup, m) == HELD
    ensures ReadsSample(env)
  {
    env, os, m := SampleSetting();
    SampleSlashed();
    NothingIsReady();
    RoundTrip.RoundTrip(env, os, SETTINGS, DATA, NONE, false, m, os, NONE, STAGING, []);
    backup := After(NONE, BackupScript(env, os, SETTINGS, DATA, NONE, false));
    FinishedHolds(env, os, SETTINGS, DATA, NONE, false);
    BackupIsRestorable(env, backup, m);
    RestoredIsTheBackup(env, backup, m);
  }

  /** A server on the sample's metadata without the rest of it. */
  lemma SampleMixture() returns (env: Env, ws: seq<World>, events: seq<Event>)
    ensures Honest(env) && IsRun(env, ws, events) && ws[0].data == NONE
    ensures Last(ws).holder.Server? && Marked(Last(ws).data)
    ensures ComponentFiles(Last(ws).data) == map[CATALOG := [1], CREDENTIALS := [2]]
  {
    var os, m, backup;
    env, os, m, backup := SampleBackup();
    NothingIsReady();
    HeldBelow();
    ws, events := ServerOnAMixture(env, os, SETTINGS, Checksums, NONE, backup, m, STAGING, [], CATALOG, STORAGE_FORMAT);
  }

  lemma HeldBelow()
    ensures CATALOG in HELD && STORAGE_FORMAT in HELD && STORAGE_FORMAT[0] != METADATA
    ensures Below(HELD, METADATA) == map[CATALOG := [1], CREDENTIALS := [2]]
  {
    NamesApart();
    NamesDiffer();
    HeldContents();
  }

  const LEGACY_INPUT: Tree := map[
    [] := Dir, [LEGACY_MANIFEST] := File(LEGACY_BYTES),
    ["catalog.redb"] := File([1]), ["credentials.redb"] := File([2])]

  const TEMPORARY := "metadata.restore-0"

  lemma LegacyIsThere(env: Env)
    requires ReadsSample(env)
    ensures LegacyManifestIn(env, LEGACY_INPUT) == Some(LEGACY)
  {
  }

  lemma TemporaryName()
    ensures IsStagingName(TEMPORARY) && ValidName(TEMPORARY) && TEMPORARY != STAGING
  {
    assert TEMPORARY[0] != STAGING[0];
  }

  /** What a metadata restore leaves behind outlives a restore of the sample. */
  lemma SampleLeftover() returns (env: Env, os: System, u: Tree, last: Attempt)
    ensures Honest(env) && Lawful(os)
    ensures var script := LegacyScript(env, os, NONE, LEGACY_INPUT, TEMPORARY);
            |script| > 2 && Executes(NONE, script[..2]) && u == After(NONE, script[..2])
    ensures Executes(u, ScriptOf(env, u, last)) && ComponentFiles(After(u, ScriptOf(env, u, last))) == HELD
    ensures [TEMPORARY] in After(u, ScriptOf(env, u, last))
  {
    var m, backup;
    env, os, m, backup := SampleBackup();
    NothingIsReady();
    last := Attempt(os, backup, m, STAGING, [], 0);
    LegacyIsThere(env);
    TemporaryName();
    LeftoverSurvives(env, os, NONE, LEGACY_INPUT, TEMPORARY, last);
    u := After(NONE, LegacyScript(env, os, NONE, LEGACY_INPUT, TEMPORARY)[..2]);
  }

  /** A destination of the sample comes to look complete and is not. */
  lemma SampleLooksComplete() returns (env: Env, ws: seq<World>, events: seq<Event>)
    ensures Honest(env) && IsRun(env, ws, events) && ws[0].data == DATA && ws[0].dests == map[]
    ensures "backup" in Last(ws).dests && OnlyLooksComplete(env, Last(ws).dests["backup"])
  {
    var os, m;
    env, os, m := SampleSetting();
    ws, events := RunLeavesComplete(env, os, SETTINGS, DATA, m, "backup");
  }

  // --------------------------------------------------------- a file in the way

  /** A data directory with nothing in it but a file that has the name of a staging directory. */
  const BLOCKED: Tree := map[[] := Dir, [TEMPORARY] := File([])]

  lemma BlockedEntries()
    ensures forall p :: p in BLOCKED <==> p == [] || p == [TEMPORARY]
    ensures IsDir(BLOCKED, []) && IsFile(BLOCKED, [TEMPORARY])
  {
    assert [TEMPORARY] != [];
  }

  lemma TemporaryIsNoOther()
    ensures TEMPORARY != RESTORE_MARKER && TEMPORARY !in COMPONENTS
  {
    assert |TEMPORARY| == 18 && TEMPORARY[0] == 'm' && RESTORE_MARKER[0] != 'm';
    assert forall c :: c in COMPONENTS ==> |c| < 18;
  }

  lemma BlockedIsReady()
    ensures WellFormed(BLOCKED) && Ready(BLOCKED, STAGING) && !NoFileRoots(BLOCKED)
  {
    NothingIsReady();
    TemporaryName();
    BlockedEntries();
    TemporaryIsNoOther();
    assert Parent([TEMPORARY]) == [];
    assert [TEMPORARY][0] == TEMPORARY && [STAGING][0] == STAGING && [RESTORE_MARKER][0] == RESTORE_MARKER;
    assert forall c :: c in COMPONENTS ==> [c][0] == c && [c] !in BLOCKED;
    BlockedHasNoComponents();
  }

  lemma BlockedHasNoComponents()
    ensures ComponentsEmpty(BLOCKED)
  {
    BlockedEntries();
    TemporaryIsNoOther();
    assert METADATA in COMPONENTS && SYSTEM in COMPONENTS && OBJECTS in COMPONENTS;
    assert [TEMPORARY][0] == TEMPORARY;
  }

  /**
   * The sample can be restored here.  Cut off once the marker is down, that
   * restore cannot be done over, nor any other, of whichever backup.
   */
  lemma SampleCannotResume() returns (env: Env, os: System, m: Manifest, backup: Tree, done: seq<Op>)
    ensures Honest(env) && Lawful(os) && RestoreAdmitted(env, backup, Checksums, SETTINGS)
    ensures ReadManifest(env, backup) == Ok(m)
    ensures var script := RestoreScript(env, os, BLOCKED, backup, m, STAGING, []);
            Executes(BLOCKED, script) && ComponentFiles(After(BLOCKED, script)) == HELD && done < script
    ensures Executes(BLOCKED, done) && [RESTORE_MARKER] in After(BLOCKED, done)
    ensures forall a: Attempt :: Lawful(a.os) && IsStagingName(a.staging) ==>
              !Executes(After(BLOCKED, done), ScriptOf(env, After(BLOCKED, done), a))
  {
    env, os, m, backup := SampleBackup();
    BlockedIsReady();
    RestoreRunsExactly(env, os, BLOCKED, backup, m, STAGING, []);
    RestoreCompleted(env, os, BLOCKED, backup, m, STAGING, []);
    done := MarkedEarly(env, os, BLOCKED, backup, m, STAGING, []);
    InterruptedStartableExactly(env, os, BLOCKED, backup, m, STAGING, [], done);
    AfterWellFormed(BLOCKED, done);
    NothingRuns(env, After(BLOCKED, done));
  }

  lemma NothingRuns(env: Env, t: Tree)
    requires WellFormed(t) && !Startable(t)
    ensures forall a: Attempt :: Lawful(a.os) && IsStagingName(a.staging) ==> !Executes(t, ScriptOf(env, t, a))
  {
    forall a: Attempt | Lawful(a.os) && IsStagingName(a.staging) ensures !Executes(t, ScriptOf(env, t, a)) {
      RestoreRunsExactly(env, a.os, t, a.source, a.manifest, a.staging, a.note);
    }
  }

  // ------------------------------------------------------ more than a counter holds

  /** The sample with a catalog of as many bytes as a counter counts. */
  ghost const HEAVY: Tree := DATA[CATALOG := File(seq(U64_MAX, _ => 0))]

  /** The same paths, each a file in both or a directory in both. */
  ghost predicate SameShape(t: Tree, u: Tree) {
    t.Keys == u.Keys && forall p :: p in t ==> (t[p].File? <==> u[p].File?)
  }

  lemma ShapeDecides(t: Tree, u: Tree)
    requires SameShape(t, u)
    ensures Storable(t) ==> Storable(u)
    ensures forall p :: p in LiveFiles(t) <==> p in LiveFiles(u)
  {
    assert forall p :: p in t <==> p in t.Keys;
    assert forall p :: p in u <==> p in u.Keys;
    assert forall p :: IsDir(t, p) <==> IsDir(u, p);
    assert forall p :: IsFile(t, p) <==> IsFile(u, p);
    assert forall p :: Stored(t, p) <==> Stored(u, p);
  }

  lemma HeavyShape()
    ensures SameShape(DATA, HEAVY)
    ensures FileAt(HEAVY, STORAGE_FORMAT) == Some([3])
    ensures IsFile(HEAVY, CATALOG) && |HEAVY[CATALOG].data| == U64_MAX
  {
    SampleContents();
    NamesApart();
  }

  /** A backup of it can be made, and the two totals of its manifest differ. */
  lemma SampleTotalsDiffer() returns (env: Env, os: System, m: Manifest)
    ensures Honest(env) && Lawful(os) && Storable(HEAVY) && SpaceSuffices(os, SETTINGS, HEAVY)
    ensures ManifestFor(env, os, SETTINGS, HEAVY) == Ok(m) && Conservation.ComponentBytes(m) != m.totalBytes
  {
    Consistency.SomeSystemIsLawful();
    os :| Lawful(os);
    SampleSlashed();
    SampleIsLive();
    HeavyShape();
    ShapeDecides(DATA, HEAVY);
    env, m := EnvironmentFor(os, HEAVY);
    HeavyIsStored();
    NamesApart();
    NamesDiffer();
    Conservation.TotalsDiffer(env, os, SETTINGS, HEAVY, m, CATALOG, STORAGE_FORMAT);
  }

  lemma HeavyIsStored()
    ensures Stored(HEAVY, CATALOG) && Stored(HEAVY, STORAGE_FORMAT)
  {
    PlainFiled(CATALOG);
    PlainFiled(STORAGE_FORMAT);
    HeavyShape();
  }

  // ------------------------------------------------------- a version 1 directory

  lemma LegacyEntries()
    ensures forall p :: p in LEGACY_INPUT <==>
              p == [] || p == ["manifest.json"] || p == ["catalog.redb"] || p == ["credentials.redb"]
    ensures FileAt(LEGACY_INPUT, ["manifest.json"]) == Some(LEGACY_BYTES) && IsDir(LEGACY_INPUT, [])
    ensures FileAt(LEGACY_INPUT, ["catalog.redb"]) == Some([1])
    ensures FileAt(LEGACY_INPUT, ["credentials.redb"]) == Some([2])
  {
    assert ["manifest.json"][0][0] == 'm' && ["catalog.redb"][0][1] == 'a' && ["credentials.redb"][0][1] == 'r';
    assert ["catalog.redb"][0][0] == ["credentials.redb"][0][0] == 'c';
    assert |["manifest.json"]| == |["catalog.redb"]| == |["credentials.redb"]| == 1;
  }

  lemma LegacyNames()
    ensures AcceptedName("catalog.redb") && AcceptedName("credentials.redb") && "catalog.redb" != "credentials.redb"
  {
    assert "catalog.redb" == "catalog" + ".redb" && "credentials.redb" == "credentials" + ".redb";
    assert |"catalog.redb"| == 12 && |"credentials.redb"| == 16;
  }

  lemma LegacyIsSound(env: Env)
    requires ReadsSample(env)
    ensures ReadsLegacy(env, LEGACY_INPUT, LEGACY) && DistinctNames(LEGACY.files)
    ensures forall f :: f in LEGACY.files ==> LegacyRuns.Sound(env, LEGACY_INPUT, f)
  {
    LegacyEntries();
    LegacyNames();
    assert LEGACY.files[0].name == "catalog.redb" && LEGACY.files[1].name == "credentials.redb";
    assert |LEGACY.files| == 2;
  }

  lemma TemporaryIsNotMetadata()
    ensures TEMPORARY != METADATA
  {
    assert |TEMPORARY| == 18 && |METADATA| == 8;
  }

  /** A metadata restore of the two databases reaches its end and leaves them below `metadata`. */
  lemma SampleMetadataRestore() returns (env: Env, os: System, u: Tree)
    ensures Honest(env) && Lawful(os)
    ensures var script := LegacyScript(env, os, NONE, LEGACY_INPUT, TEMPORARY);
            Executes(NONE, script) && u == After(NONE, script)
    ensures FileAt(u, CATALOG) == Some([1]) && FileAt(u, CREDENTIALS) == Some([2])
  {
    var m;
    env, os, m := SampleSetting();
    NothingIsReady();
    TemporaryName();
    TemporaryIsNotMetadata();
    LegacyIsSound(env);
    LegacyRunsExactly(env, os, NONE, LEGACY_INPUT, TEMPORARY);
    LegacyLeaves(env, os, NONE, LEGACY_INPUT, TEMPORARY, LEGACY, ["catalog.redb"]);
    LegacyLeaves(env, os, NONE, LEGACY_INPUT, TEMPORARY, LEGACY, ["credentials.redb"]);
    u := After(NONE, LegacyScript(env, os, NONE, LEGACY_INPUT, TEMPORARY));
    LegacyIsListed();
    LegacyEntries();
  }

  lemma LegacyIsListed()
    ensures ListsName(LEGACY.files, "catalog.redb") && ListsName(LEGACY.files, "credentials.redb")
    ensures ["metadata"] + ["catalog.redb"] == CATALOG && ["metadata"] + ["credentials.redb"] == CREDENTIALS
  {
    assert LEGACY.files[0] in LEGACY.files && LEGACY.files[1] in LEGACY.files;
  }

  lemma LegacyIsWellFormed()
    ensures WellFormed(LEGACY_INPUT) && ComponentFiles(LEGACY_INPUT) == map[]
  {
    LegacyEntries();
    assert ValidName("manifest.json") && ValidName("catalog.redb") && ValidName("credentials.redb");
    assert Parent(["manifest.json"]) == [] && Parent(["catalog.redb"]) == [] && Parent(["credentials.redb"]) == [];
    forall p | p in LEGACY_INPUT ensures !InComponent(p) && ValidPath(p) {
      LegacyNamesApart();
    }
  }

  lemma LegacyNamesApart()
    ensures "manifest.json" !in COMPONENTS && "catalog.redb" !in COMPONENTS && "credentials.redb" !in COMPONENTS
  {
    assert forall c :: c in COMPONENTS ==> |c| <= 8;
    assert |"manifest.json"| == 13 && |"catalog.redb"| == 12 && |"credentials.redb"| == 16;
  }

  lemma LegacyIsUsable(env: Env, key: Option<Bytes>)
    requires ReadsSample(env)
    ensures IsLegacy(env, LEGACY_INPUT, LEGACY) && Usable(env, LEGACY_INPUT, Checksums, key)
  {
    LegacyEntries();
    LegacyIsWellFormed();
    LegacyIsListed();
    NoModernManifest();
    LegacyIsSound(env);
    forall f | f in LEGACY.files ensures StaysBelow(f.name) && Unharmed(env, LEGACY_INPUT, f) {
      AcceptedStaysBelow(f.name);
    }
    LegacyUsableExactly(env, LEGACY_INPUT, LEGACY, Checksums, key);
  }

  lemma NoModernManifest()
    ensures ["backup-manifest.json"] !in LEGACY_INPUT && ["INCOMPLETE"] !in LEGACY_INPUT
  {
    LegacyEntries();
    assert ["backup-manifest.json"][0][0] == 'b' && ["INCOMPLETE"][0][0] == 'I';
    assert ["manifest.json"][0][0] == 'm' && ["catalog.redb"][0][0] == ["credentials.redb"][0][0] == 'c';
  }

  /** A restore of the same directory is admitted, without any key, and leaves the same. */
  lemma SampleLegacyRestore() returns (env: Env, os: System, m: Manifest, u: Tree)
    ensures Honest(env) && Lawful(os) && ReadManifest(env, LEGACY_INPUT) == Ok(m)
    ensures RestoreAdmitted(env, LEGACY_INPUT, Checksums, SETTINGS)
    ensures var script := RestoreScript(env, os, NONE, LEGACY_INPUT, m, STAGING, []);
            Executes(NONE, script) && u == After(NONE, script)
    ensures FileAt(u, CATALOG) == Some([1]) && FileAt(u, CREDENTIALS) == Some([2])
  {
    env, os, m := SampleSetting();
    m, u := LegacyRestoredHere(env, os);
  }

  lemma LegacyRestoredHere(env: Env, os: System) returns (m: Manifest, u: Tree)
    requires Lawful(os) && ReadsSample(env)
    ensures ReadManifest(env, LEGACY_INPUT) == Ok(m) && RestoreAdmitted(env, LEGACY_INPUT, Checksums, SETTINGS)
    ensures var script := RestoreScript(env, os, NONE, LEGACY_INPUT, m, STAGING, []);
            Executes(NONE, script) && u == After(NONE, script)
    ensures FileAt(u, CATALOG) == Some([1]) && FileAt(u, CREDENTIALS) == Some([2])
  {
    NothingIsReady();
    LegacyIsWellFormed();
    LegacyIsUsable(env, SETTINGS.masterKey);
    LegacyIsSound(env);
    m := LegacyGoesThrough(env, LEGACY_INPUT, LEGACY, SETTINGS, os, NONE, STAGING, []);
    u := After(NONE, RestoreScript(env, os, NONE, LEGACY_INPUT, m, STAGING, []));
    DatabasesThere(u);
  }

  lemma DatabasesThere(u: Tree)
    requires forall q :: FileAt(u, q) == LegacyFileAt(LEGACY_INPUT, LEGACY, q) || !InComponent(q)
    ensures FileAt(u, CATALOG) == Some([1]) && FileAt(u, CREDENTIALS) == Some([2])
  {
    LegacyIsListed();
    LegacyEntries();
    DatabaseThere(u, "catalog.redb");
    DatabaseThere(u, "credentials.redb");
  }

  lemma DatabaseThere(u: Tree, name: string)
    requires forall q :: FileAt(u, q) == LegacyFileAt(LEGACY_INPUT, LEGACY, q) || !InComponent(q)
    requires ListsName(LEGACY.files, name)
    ensures FileAt(u, [METADATA, name]) == FileAt(LEGACY_INPUT, [name])
  {
    var q := [METADATA, name];
    assert q[1..] == [name] && Join([name], '/') == name && InComponent(q);
  }
}
