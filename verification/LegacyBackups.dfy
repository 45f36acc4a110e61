/** A version 1 directory, as `verify` and `restore` see it. */
module LegacyBackups {
  import opened Wrappers
  import opened Text
  import opened Filesystem
  import opened Layout
  import opened Copying
  import opened Manifests
  import opened Verification
  import opened Backups
  import opened Restores
  import opened RestoreEffect
  import opened RestoreRuns
  import opened LegacyRestore
  import opened LegacyRuns

  // ------------------------------------------------------------------ reading

  /** What a version 1 manifest is read as: its files below `metadata`, nothing encrypted, no sealing key. */
  ghost predicate Presents(m: Manifest, legacy: LegacyManifest) {
    && m.formatVersion == 1 && m.storageVersion == 1 && m.schemaVersion == legacy.schemaVersion
    && m.created == legacy.created && !m.encrypted && m.sealingKey.None?
    && |m.files| == |legacy.files|
    && (forall i :: 0 <= i < |m.files| ==> PresentsFile(m.files[i], legacy.files[i]))
    && m.components == [BackupComponent("metadata", true, |m.files|, m.totalBytes)]
    && m.totalBytes == SumSizes(m.files) % 0x1_0000_0000_0000_0000
  }

  ghost predicate PresentsFile(f: BackupFile, l: LegacyFile) {
    f.path == "metadata/" + l.name && f.size == l.size && f.sha256 == l.sha256
  }

  /** The bytes of the manifest: of the new name if there is a file of that name, else of the old one. */
  ghost predicate ManifestBytes(t: Tree, bytes: Bytes) {
    && (if IsFile(t, ["backup-manifest.json"]) then t[["backup-manifest.json"]] == File(bytes)
        else IsFile(t, ["manifest.json"]) && t[["manifest.json"]] == File(bytes))
    && |bytes| <= 67108864
  }

  /** A manifest is read as one of format 2 if it can be, and else as one of version 1. */
  lemma ReadsExactly(env: Env, t: Tree, m: Manifest)
    ensures ReadManifest(env, t) == Ok(m) <==>
            exists bytes :: && ManifestBytes(t, bytes)
                            && (|| env.decode(bytes) == Some(m)
                                || (&& env.decode(bytes).None? && env.decodeLegacy(bytes).Some?
                                    && env.decodeLegacy(bytes).value.formatVersion == 1
                                    && Presents(m, env.decodeLegacy(bytes).value)))
  {
    forall legacy: LegacyManifest | legacy.formatVersion == 1
      ensures LegacyAsModern(legacy) == Ok(m) <==> Presents(m, legacy)
    {
      PresentedExactly(legacy, m);
    }
    if ReadManifest(env, t) == Ok(m) {
      assert ManifestBytes(t, t[ManifestPath(t)].data);
    }
  }

  lemma PresentedExactly(legacy: LegacyManifest, m: Manifest)
    requires legacy.formatVersion == 1
    ensures LegacyAsModern(legacy) == Ok(m) <==> Presents(m, legacy)
  {
    var read := LegacyAsModern(legacy).value;
    assert Presents(read, legacy);
    if Presents(m, legacy) {
      assert m.files == read.files;
    }
  }

  // ---------------------------------------------------------------- structure

  /** A name that stays below `metadata`: short enough, and no segment empty, climbing or with a backslash. */
  ghost predicate StaysBelow(name: string) {
    && ByteLength(name) <= 1015
    && forall segment :: segment in Split(name, '/') ==> SafeSegment(segment)
  }

  lemma {:induction false} LengthConcat(a: string, b: string)
    ensures ByteLength(a + b) == ByteLength(a) + ByteLength(b)
    decreases |a|
  {
    if a == "" {
      assert a + b == b;
    } else {
      assert (a + b)[0] == a[0] && (a + b)[1..] == a[1..] + b;
      LengthConcat(a[1..], b);
    }
  }

  lemma PrefixLength()
    ensures ByteLength("metadata/") == 9
  {
    assert ByteLength("/") == 1 && ByteLength("a/") == 2 && ByteLength("ta/") == 3 by {
      assert "ta/"[1..] == "a/" && "a/"[1..] == "/" && "/"[1..] == "";
    }
    assert ByteLength("data/") == 5 by {
      assert "data/"[1..] == "ata/" && "ata/"[1..] == "ta/";
    }
    assert ByteLength("meta") == 4 by {
      assert "meta"[1..] == "eta" && "eta"[1..] == "ta" && "ta"[1..] == "a" && "a"[1..] == "";
    }
    LengthConcat("meta", "data/");
    assert "meta" + "data/" == "metadata/";
  }

  lemma SplitBelow(name: string)
    ensures Split("metadata/" + name, '/') == ["metadata"] + Split(name, '/')
  {
    assert "metadata/" + name == METADATA + ['/'] + name;
    ComponentNamesArePlain();
    SplitPart(METADATA, name, '/');
  }

  lemma SegmentsBelow(parts: seq<string>)
    ensures (forall segment :: segment in parts ==> SafeSegment(segment)) <==>
            forall i :: 1 <= i < |["metadata"] + parts| ==> SafeSegment((["metadata"] + parts)[i])
  {
    forall k | 0 <= k < |parts| ensures parts[k] == (["metadata"] + parts)[k + 1] && parts[k] in parts {
    }
  }

  lemma SafeBelow(name: string)
    ensures SafeRelativePath("metadata/" + name) <==> StaysBelow(name)
  {
    LengthConcat("metadata/", name);
    PrefixLength();
    SplitBelow(name);
    SegmentsBelow(Split(name, '/'));
    assert METADATA in COMPONENTS && ("metadata/" + name)[0] == 'm';
  }

  /** Every name a metadata restore takes is one of these. */
  lemma AcceptedStaysBelow(name: string)
    requires AcceptedName(name)
    ensures StaysBelow(name) && Split(name, '/') == [name]
  {
    FilenameExactly(name);
    FilenameIsPlain(name);
    OnePart(name);
  }

  lemma ListsBelow(m: Manifest, legacy: LegacyManifest, name: string)
    requires Presents(m, legacy)
    ensures "metadata/" + name in ListedPaths(m) <==> ListsName(legacy.files, name)
  {
    if "metadata/" + name in ListedPaths(m) {
      var f :| f in m.files && f.path == "metadata/" + name;
      var i :| 0 <= i < |m.files| && m.files[i] == f;
      assert PresentsFile(m.files[i], legacy.files[i]);
      assert ("metadata/" + name)[9..] == name && ("metadata/" + legacy.files[i].name)[9..] == legacy.files[i].name;
    }
    if l :| l in legacy.files && l.name == name {
      var i :| 0 <= i < |legacy.files| && legacy.files[i] == l;
      assert PresentsFile(m.files[i], legacy.files[i]) && m.files[i] in m.files;
    }
  }

  /** The two databases are listed and every name stays below `metadata`, in a schema that can be read. */
  ghost predicate GoodManifest(legacy: LegacyManifest) {
    && legacy.schemaVersion <= 6
    && ListsName(legacy.files, "catalog.redb") && ListsName(legacy.files, "credentials.redb")
    && forall l :: l in legacy.files ==> StaysBelow(l.name)
  }

  lemma RequiredTexts()
    ensures "metadata/" + "catalog.redb" == "metadata/catalog.redb"
    ensures "metadata/" + "credentials.redb" == "metadata/credentials.redb"
  {
  }

  lemma RequiredBelow(m: Manifest, legacy: LegacyManifest)
    requires Presents(m, legacy)
    ensures (forall path :: path in RequiredFor(m) ==> path in ListedPaths(m)) <==>
            ListsName(legacy.files, "catalog.redb") && ListsName(legacy.files, "credentials.redb")
  {
    forall path ensures path in RequiredFor(m) <==> IsRequired(1, path) {
      RequiredExactly(m, path);
    }
    ListsBelow(m, legacy, "catalog.redb");
    ListsBelow(m, legacy, "credentials.redb");
    RequiredTexts();
    assert IsRequired(1, "metadata/catalog.redb") && IsRequired(1, "metadata/credentials.redb");
  }

  lemma PathsBelow(m: Manifest, legacy: LegacyManifest)
    requires Presents(m, legacy)
    ensures (forall f :: f in m.files ==> SafeRelativePath(f.path)) <==>
            forall l :: l in legacy.files ==> StaysBelow(l.name)
  {
    forall i | 0 <= i < |m.files|
      ensures m.files[i] in m.files && legacy.files[i] in legacy.files
      ensures SafeRelativePath(m.files[i].path) <==> StaysBelow(legacy.files[i].name)
    {
      assert PresentsFile(m.files[i], legacy.files[i]);
      SafeBelow(legacy.files[i].name);
    }
  }

  /** Once read, a version 1 manifest has the structure asked for exactly when it is like that. */
  lemma LegacyStructured(m: Manifest, legacy: LegacyManifest)
    requires Presents(m, legacy)
    ensures Structured(m) <==> GoodManifest(legacy)
  {
    RequiredBelow(m, legacy);
    PathsBelow(m, legacy);
  }

  // ------------------------------------------------------------------- usable

  /** A file listed is at the top of the directory, with the size and digest listed. */
  ghost predicate Unharmed(env: Env, t: Tree, l: LegacyFile) {
    var p := Split(l.name, '/');
    IsFile(t, p) && Size(t[p].data) == l.size && env.digest(t[p].data) == l.sha256
  }

  lemma LegacyIntact(env: Env, t: Tree, m: Manifest, legacy: LegacyManifest, i: nat)
    requires Presents(m, legacy) && i < |m.files|
    ensures Intact(env, t, m, m.files[i]) <==> Unharmed(env, t, legacy.files[i])
  {
    assert PresentsFile(m.files[i], legacy.files[i]);
    assert ("metadata/" + legacy.files[i].name)[|"metadata/"|..] == legacy.files[i].name;
  }

  /** A version 1 directory: only the old manifest, which reads, and no component beside it. */
  ghost predicate IsLegacy(env: Env, t: Tree, legacy: LegacyManifest) {
    && !IsFile(t, ["backup-manifest.json"]) && IsFile(t, ["manifest.json"])
    && |t[["manifest.json"]].data| <= 67108864
    && env.decode(t[["manifest.json"]].data).None? && env.decodeLegacy(t[["manifest.json"]].data) == Some(legacy)
    && ComponentFiles(t) == map[]
  }

  lemma NoComponents(t: Tree, listed: set<string>)
    requires ComponentFiles(t) == map[]
    ensures forall c :: c in COMPONENTS ==> !IsFile(t, [c]) && StrayFree(t, c, listed)
    ensures !IsFile(t, CATALOG)
  {
    forall c, p | c in COMPONENTS && p in t && [c] <= p ensures !t[p].File? {
      assert InComponent(p) && p !in ComponentFiles(t);
    }
    assert METADATA in COMPONENTS && [METADATA] <= CATALOG;
  }

  lemma LegacyIntactAll(env: Env, t: Tree, m: Manifest, legacy: LegacyManifest)
    requires Presents(m, legacy)
    ensures (forall f :: f in m.files ==> Intact(env, t, m, f)) <==>
            forall l :: l in legacy.files ==> Unharmed(env, t, l)
  {
    forall i | 0 <= i < |m.files|
      ensures m.files[i] in m.files && legacy.files[i] in legacy.files
      ensures Intact(env, t, m, m.files[i]) <==> Unharmed(env, t, legacy.files[i])
    {
      LegacyIntact(env, t, m, legacy, i);
    }
  }

  lemma LegacyChecksummed(env: Env, t: Tree, m: Manifest, legacy: LegacyManifest)
    requires Presents(m, legacy) && ComponentFiles(t) == map[]
    ensures Checksummed(env, t, m) <==> forall l :: l in legacy.files ==> Unharmed(env, t, l)
  {
    LegacyIntactAll(env, t, m, legacy);
    NoComponents(t, ListedPaths(m));
  }

  lemma LegacyReads(env: Env, t: Tree, legacy: LegacyManifest)
    requires IsLegacy(env, t, legacy)
    ensures ReadManifest(env, t) == LegacyAsModern(legacy)
  {
  }

  /** What is asked of a backup that needs no key. */
  lemma UnencryptedUsable(env: Env, t: Tree, level: Level, key: Option<Bytes>, m: Manifest)
    requires ReadManifest(env, t) == Ok(m) && !m.encrypted && level != Full
    ensures Usable(env, t, level, key) <==>
            [INCOMPLETE] !in t && Structured(m) && (level == Checksums ==> Checksummed(env, t, m))
  {
  }

  /**
   * A version 1 directory is usable, with whatever key, at the manifest level
   * exactly when its manifest is good, at the checksums level exactly when its
   * files are unharmed too, and at the full level never: it has no catalog where
   * the payload cross-check looks for one.
   */
  lemma LegacyUsableExactly(env: Env, t: Tree, legacy: LegacyManifest, level: Level, key: Option<Bytes>)
    requires IsLegacy(env, t, legacy)
    ensures Usable(env, t, level, key) <==>
            && level != Full && ["INCOMPLETE"] !in t && legacy.formatVersion == 1 && GoodManifest(legacy)
            && (level == Checksums ==> forall l :: l in legacy.files ==> Unharmed(env, t, l))
  {
    LegacyReads(env, t, legacy);
    if level == Full {
      FullNeedsCatalog(env, t, key);
      NoComponents(t, {});
    } else if legacy.formatVersion == 1 {
      var m := LegacyAsModern(legacy).value;
      PresentedExactly(legacy, m);
      LegacyStructured(m, legacy);
      LegacyChecksummed(env, t, m, legacy);
      UnencryptedUsable(env, t, level, key, m);
    }
  }

  lemma FullNeedsCatalog(env: Env, t: Tree, key: Option<Bytes>)
    ensures Usable(env, t, Full, key) ==> IsFile(t, CATALOG)
  {
  }

  // ----------------------------------------------------------------- restoring

  lemma LegacyCopyIsAcceptable(env: Env, t: Tree, m: Manifest, legacy: LegacyManifest, i: nat)
    requires Presents(m, legacy) && i < |m.files|
    requires StaysBelow(legacy.files[i].name) && Unharmed(env, t, legacy.files[i])
    ensures var c := RestoreCopy(env, t, m, m.files[i]);
            && Acceptable(c) && c.path == "metadata/" + legacy.files[i].name
            && c.data == Some(t[Split(legacy.files[i].name, '/')].data)
            && Target([], c) == ["metadata"] + Split(legacy.files[i].name, '/')
  {
    LegacyIntact(env, t, m, legacy, i);
    assert PresentsFile(m.files[i], legacy.files[i]);
    var name := legacy.files[i].name;
    SafeBelow(name);
    assert ("metadata/" + name)[|"metadata/"|..] == name && "metadata/" + name == METADATA + ['/'] + name;
    ComponentNamesArePlain();
    SplitPart(METADATA, name, '/');
    assert [] + (["metadata"] + Split(name, '/')) == ["metadata"] + Split(name, '/');
  }

  /** Distinct names of files of one directory are not in each other's way. */
  lemma LegacyApart(t: Tree, a: string, b: string)
    requires WellFormed(t) && IsFile(t, Split(a, '/')) && IsFile(t, Split(b, '/')) && Split(a, '/') <= Split(b, '/')
    ensures a == b
  {
    FilesAreLeaves(t, Split(a, '/'), Split(b, '/'));
    JoinOfSplit(a, '/');
    JoinOfSplit(b, '/');
  }

  /** Two entries have one path exactly when they have one name. */
  lemma SamePathSameName(a: string, b: string)
    requires "metadata/" + a == "metadata/" + b
    ensures a == b
  {
    assert ("metadata/" + a)[9..] == a && ("metadata/" + b)[9..] == b;
  }

  /** The copies a restore makes of the files of such a directory. */
  ghost predicate CopiesBelow(t: Tree, copies: seq<Copy>, files: seq<LegacyFile>) {
    |copies| == |files| && forall i :: 0 <= i < |copies| ==> CopyBelow(t, copies[i], files[i].name)
  }

  ghost predicate CopyBelow(t: Tree, c: Copy, name: string) {
    && Acceptable(c) && c.path == "metadata/" + name && IsFile(t, Split(name, '/'))
    && Target([], c) == ["metadata"] + Split(name, '/')
  }

  lemma CopiesOfLegacy(env: Env, t: Tree, m: Manifest, legacy: LegacyManifest)
    requires Presents(m, legacy)
    requires forall l :: l in legacy.files ==> StaysBelow(l.name) && Unharmed(env, t, l)
    ensures CopiesBelow(t, RestoreCopies(env, t, m, m.files), legacy.files)
  {
    var copies := RestoreCopies(env, t, m, m.files);
    forall i | 0 <= i < |copies| ensures CopyBelow(t, copies[i], legacy.files[i].name) {
      assert legacy.files[i] in legacy.files;
      LegacyCopyIsAcceptable(env, t, m, legacy, i);
    }
  }

  lemma CopiesDiffer(t: Tree, copies: seq<Copy>, files: seq<LegacyFile>)
    requires CopiesBelow(t, copies, files) && DistinctNames(files)
    ensures DistinctPaths(copies)
  {
    forall i, j | 0 <= i < j < |copies| ensures copies[i].path != copies[j].path {
      assert CopyBelow(t, copies[i], files[i].name) && CopyBelow(t, copies[j], files[j].name);
      if copies[i].path == copies[j].path {
        SamePathSameName(files[i].name, files[j].name);
      }
    }
  }

  lemma CopiesApart(t: Tree, copies: seq<Copy>, files: seq<LegacyFile>)
    requires WellFormed(t) && CopiesBelow(t, copies, files)
    ensures Unclashing(copies)
  {
    forall c, d | c in copies && d in copies && Target([], c) <= Target([], d) ensures c.path == d.path {
      var i :| 0 <= i < |copies| && copies[i] == c;
      var j :| 0 <= j < |copies| && copies[j] == d;
      assert CopyBelow(t, copies[i], files[i].name) && CopyBelow(t, copies[j], files[j].name);
      assert Split(files[i].name, '/') == Target([], c)[1..] <= Target([], d)[1..];
      LegacyApart(t, files[i].name, files[j].name);
    }
  }

  /**
   * Such a directory, if its names are distinct, is restored, under whatever
   * configuration, into every directory a restore may start in.
   */
  lemma LegacyGoesThrough(env: Env, t: Tree, legacy: LegacyManifest, settings: Settings, os: System, data: Tree,
                          staging: string, note: Bytes) returns (m: Manifest)
    requires WellFormed(t) && IsLegacy(env, t, legacy) && Usable(env, t, Checksums, settings.masterKey)
    requires DistinctNames(legacy.files) && Lawful(os) && Ready(data, staging)
    ensures ReadManifest(env, t) == Ok(m) && Presents(m, legacy) && RestoreAdmitted(env, t, Checksums, settings)
    ensures Executes(data, RestoreScript(env, os, data, t, m, staging, note))
    ensures var u := After(data, RestoreScript(env, os, data, t, m, staging, note));
            forall q :: FileAt(u, q) == LegacyFileAt(t, legacy, q) || !InComponent(q)
  {
    LegacyUsableExactly(env, t, legacy, Checksums, settings.masterKey);
    LegacyReads(env, t, legacy);
    m := LegacyAsModern(legacy).value;
    PresentedExactly(legacy, m);
    var copies := RestoreCopies(env, t, m, m.files);
    CopiesOfLegacy(env, t, m, legacy);
    CopiesDiffer(t, copies, legacy.files);
    CopiesApart(t, copies, legacy.files);
    RestoreGoesThrough(env, os, data, t, m, staging, note);
    RestoreCompleted(env, os, data, t, m, staging, note);
    assert Restored(env, t, m) == Copied([], copies);
    LegacyFilesRestored(env, t, m, legacy, After(data, RestoreScript(env, os, data, t, m, staging, note)));
  }

  /** What is restored of a version 1 directory: the file listed under the rest of the path, below `metadata`. */
  ghost function LegacyFileAt(t: Tree, legacy: LegacyManifest, q: Path): Option<Bytes> {
    if |q| > 1 && q[0] == "metadata" && ListsName(legacy.files, Join(q[1..], '/')) then FileAt(t, q[1..]) else None
  }

  lemma LegacyFilesRestored(env: Env, t: Tree, m: Manifest, legacy: LegacyManifest, u: Tree)
    requires WellFormed(t) && Presents(m, legacy)
    requires forall l :: l in legacy.files ==> StaysBelow(l.name) && Unharmed(env, t, l)
    requires ComponentFiles(u) == Restored(env, t, m)
    ensures forall q :: FileAt(u, q) == LegacyFileAt(t, legacy, q) || !InComponent(q)
  {
    forall q | InComponent(q) ensures FileAt(u, q) == LegacyFileAt(t, legacy, q) {
      assert FileAt(u, q) == Lookup(ComponentFiles(u), q);
      LegacyFileRestored(env, t, m, legacy, q);
    }
  }

  lemma LegacyFileRestored(env: Env, t: Tree, m: Manifest, legacy: LegacyManifest, q: Path)
    requires WellFormed(t) && Presents(m, legacy)
    requires forall l :: l in legacy.files ==> StaysBelow(l.name) && Unharmed(env, t, l)
    ensures Lookup(Restored(env, t, m), q) == LegacyFileAt(t, legacy, q)
  {
    if q in Restored(env, t, m) {
      RestoredIsListed(env, t, m, legacy, q);
    } else if LegacyFileAt(t, legacy, q).Some? {
      var l :| l in legacy.files && l.name == Join(q[1..], '/');
      ListedIsRestored(env, t, m, legacy, q, l);
    }
  }

  lemma RestoredIsListed(env: Env, t: Tree, m: Manifest, legacy: LegacyManifest, q: Path)
    requires Presents(m, legacy) && q in Restored(env, t, m)
    requires forall l :: l in legacy.files ==> StaysBelow(l.name) && Unharmed(env, t, l)
    ensures LegacyFileAt(t, legacy, q) == Some(Restored(env, t, m)[q])
  {
    var copies := RestoreCopies(env, t, m, m.files);
    var i := CopiedOnly([], copies, q);
    assert legacy.files[i] in legacy.files;
    LegacyCopyIsAcceptable(env, t, m, legacy, i);
    assert q[1..] == Split(legacy.files[i].name, '/');
    JoinOfSplit(legacy.files[i].name, '/');
  }

  lemma ListedIsRestored(env: Env, t: Tree, m: Manifest, legacy: LegacyManifest, q: Path, l: LegacyFile)
    requires WellFormed(t) && Presents(m, legacy) && l in legacy.files && StaysBelow(l.name) && Unharmed(env, t, l)
    requires |q| > 1 && q[0] == "metadata" && l.name == Join(q[1..], '/') && q[1..] in t
    ensures q in Restored(env, t, m)
  {
    var copies := RestoreCopies(env, t, m, m.files);
    var i :| 0 <= i < |legacy.files| && legacy.files[i] == l;
    LegacyCopyIsAcceptable(env, t, m, legacy, i);
    forall part | part in q[1..] ensures '/' !in part {
      assert ValidName(part);
    }
    SplitOfJoin(q[1..], '/');
    assert q == ["metadata"] + q[1..];
    CopiedHas([], copies, i);
  }
}
