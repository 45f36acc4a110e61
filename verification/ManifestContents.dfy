/** What the manifest of a backup says, in terms of the deployment and the configuration alone. */
module ManifestContents {
  import opened Wrappers
  import opened Sequences
  import opened Text
  import opened Filesystem
  import opened Walking
  import opened Layout
  import opened Payloads
  import opened Manifests
  import opened Backups
  import opened BackupContents
  import opened Filing
  import opened BackupRuns
  import opened Conservation

  // --------------------------------------------------------------- components

  /** The files of one component that a backup copies. */
  ghost function StoredIn(data: Tree, component: string): map<Path, Bytes> {
    map p | p in data && Stored(data, p) && p[0] == component :: data[p].data
  }

  /** A component's line: its name, whether it must be there, and how much of it there is, up to the counters. */
  ghost predicate Sums(c: BackupComponent, data: Tree, component: string) {
    && c.name == component && (c.required <==> component != "objects")
    && c.fileCount == Saturate(|StoredIn(data, component)|) && c.bytes == Saturate(Weight(StoredIn(data, component)))
  }

  lemma {:induction false} CountOf(list: seq<Path>, files: map<Path, Bytes>)
    requires Enumerates(list, files)
    ensures |list| == |files|
    decreases |list|
  {
    if list == [] {
      assert files == map[];
    } else {
      var p, rest := list[0], list[1..];
      assert p in list && p in files;
      Fewer(files, p);
      forall q ensures q in rest <==> q in files - {p} {
        assert q in list <==> q == p || q in rest;
        assert q == p ==> q !in rest;
      }
      assert Distinct(rest);
      CountOf(rest, files - {p});
      assert (files - {p}).Keys == files.Keys - {p} && |files| == |files.Keys|;
      assert |files - {p}| == |(files - {p}).Keys|;
    }
  }

  lemma ComponentSums(env: Env, os: System, data: Tree, component: string)
    requires Lawful(os) && WellFormed(data) && Walkable(data) && component in COMPONENTS
    ensures Sums(ComponentEntry(env, os, data, component), data, component)
  {
    WalkFilesIsComplete(os, data, [component]);
    var files := WalkFiles(os, data, [component]).value;
    KeptMembers(files);
    CopiedTotal(env, data, files);
    forall p ensures p in Conservation.Kept(files) <==> p in StoredIn(data, component) {
      assert p in files <==> IsFile(data, p) && [component] <= p;
      assert p != [] ==> ([component] <= p <==> p[0] == component);
    }
    CountOf(Conservation.Kept(files), StoredIn(data, component));
    TotalIsWeight(data, Conservation.Kept(files), StoredIn(data, component));
    SaturatingSumIsSaturated(FilesOf(env, ComponentCopies(os, data, component)));
  }

  // ------------------------------------------------------------------ the rest

  /** The version a catalog is at: the one it records, or if none can be read this release's. */
  ghost predicate SchemaOf(env: Env, catalog: Bytes, version: nat) {
    env.schemaVersion(catalog) == Some(version) || (env.schemaVersion(catalog).None? && version == 6)
  }

  /** Everything a manifest says. */
  ghost predicate Tells(env: Env, settings: Settings, data: Tree, m: Manifest)
    requires Storable(data)
  {
    && m.formatVersion == 2 && m.created == settings.now && m.sealingKey == settings.sealingKey && m.sealingKey.Some?
    && IsFile(data, STORAGE_FORMAT) && env.storageFormat(data[STORAGE_FORMAT].data) == Some(m.storageVersion)
    && IsFile(data, CATALOG) && SchemaOf(env, data[CATALOG].data, m.schemaVersion) && IsFile(data, CREDENTIALS)
    && (m.encrypted <==> IsFile(data, ["system", "object-encryption.json"]))
    && |m.components| == 3 && Sums(m.components[0], data, "metadata") && Sums(m.components[1], data, "system")
    && Sums(m.components[2], data, "objects")
    && Itemizes(env, m.files, Slashed(data)) && InOrder(m.files)
    && m.totalBytes == Weight(Slashed(data)) % 0x1_0000_0000_0000_0000
  }

  /** A file at the top of a component is copied as it is. */
  lemma TopFile(data: Tree, p: Path)
    requires Storable(data) && |p| == 2 && InComponent(p) && PlainPath(p)
    ensures p in LiveFiles(data) <==> IsFile(data, p)
    ensures p in Slashed(data) <==> IsFile(data, p)
    ensures IsFile(data, p) ==> Slashed(data)[p] == data[p].data == LiveFiles(data)[p]
  {
    TopFilesAreLive(data, p);
  }

  lemma TopFiles(data: Tree)
    requires Storable(data)
    ensures forall p :: p == CATALOG || p == CREDENTIALS || p == STORAGE_FORMAT || p == ENCRYPTION_RECORD ==>
              && (p in LiveFiles(data) <==> IsFile(data, p)) && (p in Slashed(data) <==> IsFile(data, p))
              && (IsFile(data, p) ==> Slashed(data)[p] == data[p].data == LiveFiles(data)[p])
  {
    RequiredSplit();
    RecordIsPlain();
    TopFile(data, CATALOG);
    TopFile(data, CREDENTIALS);
    TopFile(data, STORAGE_FORMAT);
    TopFile(data, ENCRYPTION_RECORD);
  }

  /** The lines of a manifest that are read back from the copies or come from the configuration. */
  lemma HeaderTells(env: Env, settings: Settings, copied: map<Path, Bytes>, files: seq<BackupFile>,
                    components: seq<BackupComponent>)
    requires Assembled(env, settings, copied, files, components).Ok?
    ensures var m := Assembled(env, settings, copied, files, components).value;
            && m.formatVersion == 2 && m.created == settings.now && m.sealingKey == settings.sealingKey
            && STORAGE_FORMAT in copied && env.storageFormat(copied[STORAGE_FORMAT]) == Some(m.storageVersion)
            && (CATALOG in copied ==> SchemaOf(env, copied[CATALOG], m.schemaVersion))
            && (m.encrypted <==> ENCRYPTION_RECORD in copied)
            && m.totalBytes == SumSizes(files) % 0x1_0000_0000_0000_0000
  {
  }

  lemma PublishedFiles(env: Env, os: System, settings: Settings, data: Tree)
    requires Lawful(os) && Storable(data)
    ensures ManifestFor(env, os, settings, data).Ok? <==>
            && IsFile(data, CATALOG) && IsFile(data, CREDENTIALS) && IsFile(data, STORAGE_FORMAT)
            && env.storageFormat(data[STORAGE_FORMAT].data).Some? && settings.sealingKey.Some?
  {
    TopFiles(data);
    PublishesExactly(env, os, settings, data);
    RequiredAre(LiveFiles(data));
  }

  lemma RequiredAre(live: map<Path, Bytes>)
    ensures (forall path :: path in REQUIRED ==> Split(path, '/') in live) <==>
            CATALOG in live && CREDENTIALS in live && STORAGE_FORMAT in live
  {
    RequiredSplit();
    assert REQUIRED[0] in REQUIRED && REQUIRED[1] in REQUIRED && REQUIRED[2] in REQUIRED;
  }

  lemma ManifestTells(env: Env, os: System, settings: Settings, data: Tree, m: Manifest)
    requires Lawful(os) && Storable(data) && ManifestFor(env, os, settings, data) == Ok(m)
    ensures Tells(env, settings, data, m)
  {
    TopFiles(data);
    PublishedFiles(env, os, settings, data);
    CopiedIsTheDeployment(os, data);
    HeaderTells(env, settings, Slashed(data), Sorted(FilesOf(env, AllCopies(os, data, COMPONENTS))),
                ComponentEntries(env, os, data, COMPONENTS));
    ManifestShape(env, os, settings, data, m);
    ManifestLists(env, os, settings, data);
    SortedInOrder(FilesOf(env, AllCopies(os, data, COMPONENTS)));
    ManifestHoldsTheWeight(env, os, settings, data, m);
    ComponentSums(env, os, data, METADATA);
    ComponentSums(env, os, data, SYSTEM);
    ComponentSums(env, os, data, OBJECTS);
    assert COMPONENTS[0] == METADATA && COMPONENTS[1] == SYSTEM && COMPONENTS[2] == OBJECTS;
  }

  // ------------------------------------------------------------- nothing else

  lemma {:induction false} PrecedesBoth(a: string, b: string)
    requires Precedes(a, b) && Precedes(b, a)
    ensures a == b
  {
    if a != "" && b != "" {
      PrecedesBoth(a[1..], b[1..]);
      assert a == [a[0]] + a[1..] && b == [b[0]] + b[1..];
    }
  }

  lemma FirstAgree(a: seq<BackupFile>, b: seq<BackupFile>)
    requires InOrder(a) && InOrder(b) && DistinctFiles(b) && (forall f :: f in a <==> f in b) && a != []
    ensures b != [] && a[0] == b[0]
  {
    assert a[0] in a && b[0] in b;
    var i := IndexOf(b, a[0]);
    var j := IndexOf(a, b[0]);
    if i > 0 && j > 0 {
      PrecedesBoth(a[0].path, b[0].path);
    }
  }

  lemma RestAgree(a: seq<BackupFile>, b: seq<BackupFile>)
    requires a != [] && b != [] && a[0] == b[0] && DistinctFiles(a) && DistinctFiles(b)
    requires forall f :: f in a <==> f in b
    ensures forall f :: f in a[1..] <==> f in b[1..]
  {
    forall f ensures f in a[1..] ==> f in b[1..] {
      OnceOnly(a, b, f);
    }
    forall f ensures f in b[1..] ==> f in a[1..] {
      OnceOnly(b, a, f);
    }
  }

  lemma OnceOnly(a: seq<BackupFile>, b: seq<BackupFile>, f: BackupFile)
    requires a != [] && b != [] && a[0] == b[0] && DistinctFiles(a) && forall g :: g in a ==> g in b
    ensures f in a[1..] ==> f in b[1..]
  {
    if f in a[1..] {
      var i :| 0 <= i < |a[1..]| && a[1..][i] == f;
      assert a[i + 1] == f && f.path != a[0].path && f in a;
      assert b == [b[0]] + b[1..];
    }
  }

  /** One order for one set of entries. */
  lemma {:induction false} OneOrder(a: seq<BackupFile>, b: seq<BackupFile>)
    requires InOrder(a) && InOrder(b) && DistinctFiles(a) && DistinctFiles(b) && forall f :: f in a <==> f in b
    ensures a == b
    decreases |a|
  {
    if a == [] {
      if b != [] {
        FirstAgree(b, a);
      }
    } else {
      FirstAgree(a, b);
      RestAgree(a, b);
      OneOrder(a[1..], b[1..]);
      assert a == [a[0]] + a[1..] && b == [b[0]] + b[1..];
    }
  }

  lemma SameEntries(env: Env, a: seq<BackupFile>, b: seq<BackupFile>, files: map<Path, Bytes>, f: BackupFile)
    requires Itemizes(env, a, files) && Itemizes(env, b, files) && f in a
    ensures f in b
  {
    assert EntryFor(env, files, f);
    var p := Split(f.path, '/');
    assert HasEntry(b, p);
    var g :| g in b && g.path == Join(p, '/');
    assert EntryFor(env, files, g);
    JoinOfSplit(f.path, '/');
  }

  /** No two manifests tell the same. */
  lemma OneManifest(env: Env, settings: Settings, data: Tree, m: Manifest, m': Manifest)
    requires Storable(data) && Tells(env, settings, data, m) && Tells(env, settings, data, m')
    ensures m == m'
  {
    OneList(env, m.files, m'.files, Slashed(data));
    OneSummary(m.components, m'.components, data);
    OneVersion(env, data, m, m');
  }

  lemma OneList(env: Env, a: seq<BackupFile>, b: seq<BackupFile>, files: map<Path, Bytes>)
    requires Itemizes(env, a, files) && Itemizes(env, b, files) && InOrder(a) && InOrder(b)
    ensures a == b
  {
    forall f ensures f in a <==> f in b {
      if f in a {
        SameEntries(env, a, b, files, f);
      }
      if f in b {
        SameEntries(env, b, a, files, f);
      }
    }
    OneOrder(a, b);
  }

  lemma OneSummary(a: seq<BackupComponent>, b: seq<BackupComponent>, data: Tree)
    requires |a| == |b| == 3
    requires Sums(a[0], data, "metadata") && Sums(a[1], data, "system") && Sums(a[2], data, "objects")
    requires Sums(b[0], data, "metadata") && Sums(b[1], data, "system") && Sums(b[2], data, "objects")
    ensures a == b
  {
    assert a[0] == b[0] && a[1] == b[1] && a[2] == b[2];
  }

  lemma OneVersion(env: Env, data: Tree, m: Manifest, m': Manifest)
    requires IsFile(data, CATALOG) && SchemaOf(env, data[CATALOG].data, m.schemaVersion)
    requires SchemaOf(env, data[CATALOG].data, m'.schemaVersion)
    ensures m.schemaVersion == m'.schemaVersion
  {
  }

  /**
   * The manifest of a backup is the one that tells what there is, in whatever
   * order and pieces the system reads the directories and files.
   */
  lemma ManifestExactly(env: Env, os: System, settings: Settings, data: Tree, m: Manifest)
    requires Lawful(os) && Storable(data)
    ensures ManifestFor(env, os, settings, data) == Ok(m) <==> Tells(env, settings, data, m)
  {
    if Tells(env, settings, data, m) {
      PublishedFiles(env, os, settings, data);
      ManifestTells(env, os, settings, data, ManifestFor(env, os, settings, data).value);
      OneManifest(env, settings, data, m, ManifestFor(env, os, settings, data).value);
    } else if ManifestFor(env, os, settings, data) == Ok(m) {
      ManifestTells(env, os, settings, data, m);
    }
  }
}
