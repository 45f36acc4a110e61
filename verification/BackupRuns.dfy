/** A backup of a sane deployment runs to its end, and what it then holds. */
module BackupRuns {
  import opened Sequences
  import opened Text
  import opened Filesystem
  import opened Walking
  import opened Layout
  import opened Copying
  import opened Manifests
  import opened Backups
  import opened BackupContents
  import opened Filing
  import opened BackupSafety
  import opened BackupEffect

  // ------------------------------------------------------ the backup goes through

  lemma StoredApart(data: Tree, p: Path, q: Path)
    requires Storable(data) && Stored(data, p) && Stored(data, q) && p != q
    ensures CopyOf(data, p).path != CopyOf(data, q).path
  {
    assert Filed(p) != Filed(q);
  }

  lemma {:induction false} ListedDistinct(data: Tree, files: seq<Path>)
    requires Storable(data) && Distinct(files)
    requires forall p :: p in files ==> IsFile(data, p) && p != [] && InComponent(p)
    ensures DistinctPaths(CopiesOf(data, files))
    decreases |files|
  {
    if files != [] {
      assert files[0] in files && forall p :: p in files[1..] ==> p in files;
      var rest := CopiesOf(data, files[1..]);
      ListedDistinct(data, files[1..]);
      if !Skipped(files[0]) {
        forall i | 0 <= i < |rest| ensures rest[i].path != CopyOf(data, files[0]).path {
          assert rest[i] in rest;
          var q := CopiesOfOnly(data, files[1..], rest[i]);
          assert q in files && q != files[0];
          StoredApart(data, files[0], q);
        }
      }
    }
  }

  /** Nothing of a component is in the way: at most its own empty directory. */
  ghost predicate RoomFor(t: Tree, component: string) {
    forall q :: q in t ==> (q <= [component] ==> t[q].Dir?) && ([component] <= q ==> q == [component])
  }

  lemma ComponentFits(os: System, t: Tree, data: Tree, component: string)
    requires Lawful(os) && Storable(data) && component in COMPONENTS && RoomFor(t, component)
    ensures Fits(t, [], ComponentCopies(os, data, component))
  {
    var copies := ComponentCopies(os, data, component);
    WalkFilesIsComplete(os, data, [component]);
    ListedDistinct(data, WalkFiles(os, data, [component]).value);
    forall c | c in copies ensures Acceptable(c) && Target([], c) !in t {
      var p := ComponentCopyIsStored(os, data, component, c);
      StoredIsAcceptable(data, p);
      assert [component] <= Filed(p);
    }
    forall c, q | c in copies && q in t && q <= Target([], c) ensures t[q].Dir? {
      var p := ComponentCopyIsStored(os, data, component, c);
      StoredIsAcceptable(data, p);
      assert q == [] || [component] <= q;
    }
    forall c, d | c in copies && d in copies && Target([], c) <= Target([], d) ensures c.path == d.path {
      var p := ComponentCopyIsStored(os, data, component, c);
      var q := ComponentCopyIsStored(os, data, component, d);
      assert p == q;
    }
  }

  lemma ComponentRuns(os: System, t: Tree, data: Tree, component: string)
    requires Lawful(os) && Storable(data) && component in COMPONENTS && RoomFor(t, component)
    ensures Executes(t, ComponentOps(os, data, component))
  {
    ComponentNamesArePlain();
    var u := Apply(t, MakeDirs([component]));
    assert RoomFor(u, component) by {
      assert forall q :: q in u ==> q in t || q == [] || q == [component];
    }
    TreeRuns(os, u, data, component);
    AfterConcat(t, [MakeDirs([component])], TreeOps(os, data, component));
    AfterOne(t, MakeDirs([component]));
  }

  lemma TreeRuns(os: System, t: Tree, data: Tree, component: string)
    requires Lawful(os) && Storable(data) && component in COMPONENTS && RoomFor(t, component)
    ensures Executes(t, TreeOps(os, data, component))
  {
    var copies := CopyAllOps(os, [], ComponentCopies(os, data, component));
    WalkFilesIsComplete(os, data, [component]);
    ComponentFits(os, t, data, component);
    CopiesRun(os, t, [], ComponentCopies(os, data, component));
    assert TreeOps(os, data, component) == [] + copies == copies;
  }

  lemma KeepsRoom(os: System, t: Tree, data: Tree, component: string, other: string)
    requires Lawful(os) && Storable(data) && component in COMPONENTS && other in COMPONENTS && component != other
    requires WellFormed(t) && Executes(t, ComponentOps(os, data, component)) && RoomFor(t, other)
    ensures RoomFor(After(t, ComponentOps(os, data, component)), other)
  {
    var ops := ComponentOps(os, data, component);
    var u := After(t, ops);
    ComponentTouches(os, data, component, other);
    Frame(t, ops, other);
    AfterWellFormed(t, ops);
    forall q | q in u ensures (q <= [other] ==> u[q].Dir?) && ([other] <= q ==> q == [other]) {
      if q != [] && q[0] == other {
        assert SameAt(t, u, q);
      } else if q == [] {
        RootIsDir(t, ops);
      }
    }
  }

  lemma {:induction false} RootIsDir(t: Tree, ops: seq<Op>)
    requires Executes(t, ops) && !IsFile(t, [])
    ensures !IsFile(After(t, ops), [])
    decreases |ops|
  {
    if ops != [] {
      if ops[0].Rename? {
        RenameEffect(t, ops[0].path, ops[0].target, []);
      }
      RootIsDir(Apply(t, ops[0]), ops[1..]);
    }
  }

  lemma {:induction false} ComponentsRun(os: System, t: Tree, data: Tree, components: seq<string>)
    requires Lawful(os) && Storable(data) && WellFormed(t) && Distinct(components)
    requires forall c :: c in components ==> c in COMPONENTS && RoomFor(t, c)
    ensures Executes(t, ComponentsOps(os, data, components))
    decreases |components|
  {
    if components != [] {
      var c, rest := components[0], components[1..];
      var first := ComponentOps(os, data, c);
      assert c in components && forall d :: d in rest ==> d in components && d != c;
      ComponentRuns(os, t, data, c);
      AfterWellFormed(t, first);
      forall d | d in rest ensures RoomFor(After(t, first), d) {
        KeepsRoom(os, t, data, c, d);
      }
      ComponentsRun(os, After(t, first), data, rest);
      AfterConcat(t, first, ComponentsOps(os, data, rest));
    }
  }

  lemma RoomBesideTheNote(note: Bytes, component: string)
    requires component in COMPONENTS
    ensures RoomFor(EMPTY[[INCOMPLETE] := File(note)], component)
  {
    NamesDiffer();
    var t := EMPTY[[INCOMPLETE] := File(note)];
    forall q | q in t ensures (q <= [component] ==> t[q].Dir?) && ([component] <= q ==> q == [component]) {
      assert q == [] || q == [INCOMPLETE];
      assert [INCOMPLETE][0] != [component][0];
    }
  }

  lemma NoteRuns(os: System)
    ensures Executes(EMPTY, WriteOps(os, [INCOMPLETE], INCOMPLETE_NOTE))
    ensures After(EMPTY, WriteOps(os, [INCOMPLETE], INCOMPLETE_NOTE)) == EMPTY[[INCOMPLETE] := File(INCOMPLETE_NOTE)]
    ensures WellFormed(EMPTY[[INCOMPLETE] := File(INCOMPLETE_NOTE)])
  {
    MarkerNamesArePlain();
    assert ValidPath([INCOMPLETE]) && Parent([INCOMPLETE]) == [];
    WriteEffect(os, EMPTY, [INCOMPLETE], INCOMPLETE_NOTE);
    AfterWellFormed(EMPTY, WriteOps(os, [INCOMPLETE], INCOMPLETE_NOTE));
  }

  lemma CopyPhaseRuns(os: System, settings: Settings, data: Tree)
    requires Lawful(os) && Storable(data) && SpaceSuffices(os, settings, data)
    ensures Executes(EMPTY, CopyPhase(os, settings, data))
  {
    NoteRuns(os);
    var mark, t := WriteOps(os, [INCOMPLETE], INCOMPLETE_NOTE), EMPTY[[INCOMPLETE] := File(INCOMPLETE_NOTE)];
    forall c | c in COMPONENTS ensures RoomFor(t, c) {
      RoomBesideTheNote(INCOMPLETE_NOTE, c);
    }
    ComponentsAreDistinct();
    ComponentsRun(os, t, data, COMPONENTS);
    AfterConcat(EMPTY, mark, ComponentsOps(os, data, COMPONENTS));
    assert [] + mark == mark;
  }

  lemma ComponentsAreDistinct()
    ensures Distinct(COMPONENTS)
  {
    NamesDiffer();
  }

  lemma FileIsChildless(t: Tree, p: Path)
    requires WellFormed(t) && IsFile(t, p)
    ensures Enabled(t, Unlink(p))
  {
    forall q | q in t && p <= q ensures q == p {
      if q != p {
        AncestorsAreDirs(t, p, q);
      }
    }
  }

  lemma WriteRuns(os: System, t: Tree, name: string, data: Bytes)
    requires WellFormed(t) && IsDir(t, []) && ValidName(name) && [name] !in t
    ensures Executes(t, WriteOps(os, [name], data))
    ensures After(t, WriteOps(os, [name], data)) == t[[name] := File(data)]
  {
    assert ValidPath([name]) && Parent([name]) == [];
    WriteEffect(os, t, [name], data);
  }

  lemma PublishRuns(os: System, t: Tree, bytes: Bytes)
    requires WellFormed(t) && IsFile(t, [INCOMPLETE]) && [MANIFEST] !in t
    ensures Executes(t, WriteOps(os, [MANIFEST], bytes) + [Unlink([INCOMPLETE])])
  {
    NamesDiffer();
    MarkerNamesArePlain();
    assert [] <= [INCOMPLETE];
    AncestorsAreDirs(t, [], [INCOMPLETE]);
    WriteRuns(os, t, MANIFEST, bytes);
    AfterWellFormed(t, WriteOps(os, [MANIFEST], bytes));
    FileIsChildless(t[[MANIFEST] := File(bytes)], [INCOMPLETE]);
    AfterSnoc(t, WriteOps(os, [MANIFEST], bytes), Unlink([INCOMPLETE]));
  }

  lemma CopiedTree(os: System, settings: Settings, data: Tree)
    requires Lawful(os) && Storable(data) && Executes(EMPTY, CopyPhase(os, settings, data))
    ensures var t := After(EMPTY, CopyPhase(os, settings, data));
            WellFormed(t) && IsFile(t, [INCOMPLETE]) && [MANIFEST] !in t
  {
    var t := After(EMPTY, CopyPhase(os, settings, data));
    AfterWellFormed(EMPTY, CopyPhase(os, settings, data));
    CopyPhaseEffect(os, settings, data);
    assert [INCOMPLETE] in Files(t);
    NamesDiffer();
    CopyPhaseTouches(os, settings, data, MANIFEST);
    StaysAbsent(EMPTY, CopyPhase(os, settings, data), MANIFEST);
  }

  lemma RemovalRuns(os: System, dest: Tree)
    requires Lawful(os)
    ensures Executes(dest, Unlinks(os.removal(dest, [])) + [MakeDirs([])])
  {
    var order := os.removal(dest, []);
    assert IsRemovalOrder(dest, [], order);
    RemovalExecutes(dest, [], order, |order|);
    assert order[..|order|] == order;
    AfterUnlinks(dest, order);
    AfterSnoc(dest, Unlinks(order), MakeDirs([]));
  }

  /** A destination a backup may be written to: absent, empty, or an unfinished attempt it may replace. */
  ghost predicate Accepted(dest: Tree, replace: bool) {
    !IsFile(dest, []) && (Childless(dest, []) || (replace && [INCOMPLETE] in dest))
  }

  lemma PreparesExactly(os: System, dest: Tree, replace: bool)
    requires Lawful(os) && WellFormed(dest)
    ensures Executes(dest, PrepareOps(os, dest, replace)) <==> Accepted(dest, replace)
  {
    if [] !in dest {
      VacantBelow(dest, []);
      AfterOne(dest, MakeDirs([]));
      assert Accepted(dest, replace);
    } else if dest[[]].Dir? && !Childless(dest, []) && [INCOMPLETE] in dest && replace {
      RemovalRuns(os, dest);
    }
  }

  /**
   * With nothing failing underneath it, a backup runs to its end exactly when
   * the destination is absent, empty or an unfinished attempt it may replace,
   * there is room, the deployment is one a backup can hold, and there is a
   * manifest to publish.
   */
  lemma BackupGoesThrough(env: Env, os: System, settings: Settings, data: Tree, dest: Tree, replace: bool)
    requires Lawful(os) && WellFormed(data) && WellFormed(dest)
    ensures Executes(dest, BackupScript(env, os, settings, data, dest, replace)) <==>
            && Accepted(dest, replace) && SpaceSuffices(os, settings, data) && Storable(data)
            && ManifestFor(env, os, settings, data).Ok?
  {
    PreparesExactly(os, dest, replace);
    if Executes(dest, BackupScript(env, os, settings, data, dest, replace)) {
      AfterConcat(dest, PrepareOps(os, dest, replace),
                  CopyPhase(os, settings, data) + PublishOps(env, os, settings, data));
      BackupPublished(env, os, settings, data, dest, replace);
    }
    if Accepted(dest, replace) && SpaceSuffices(os, settings, data) && Storable(data)
       && ManifestFor(env, os, settings, data).Ok?
    {
      FillsEmpty(env, os, settings, data);
      PrepareLeavesEmpty(os, dest, replace);
      AfterConcat(dest, PrepareOps(os, dest, replace),
                  CopyPhase(os, settings, data) + PublishOps(env, os, settings, data));
    }
  }

  lemma FillsEmpty(env: Env, os: System, settings: Settings, data: Tree)
    requires Lawful(os) && Storable(data) && SpaceSuffices(os, settings, data)
    requires ManifestFor(env, os, settings, data).Ok?
    ensures Executes(EMPTY, CopyPhase(os, settings, data) + PublishOps(env, os, settings, data))
  {
    var copy, publish := CopyPhase(os, settings, data), PublishOps(env, os, settings, data);
    CopyPhaseRuns(os, settings, data);
    CopiedTree(os, settings, data);
    PublishRuns(os, After(EMPTY, copy), env.encode(ManifestFor(env, os, settings, data).value));
    AfterConcat(EMPTY, copy, publish);
  }

  // --------------------------------------------------------- what it holds

  lemma FiledIsThere(os: System, data: Tree, q: Path)
    requires Lawful(os) && Storable(data) && q in Slashed(data)
    ensures q in Copied([], AllCopies(os, data, COMPONENTS))
  {
    var p := FiledFrom(data, q);
    StoredIsCopied(os, data, p);
    CopyIsFiled(data, p);
    ThereOnceCopied(AllCopies(os, data, COMPONENTS), CopyOf(data, p));
  }

  lemma ThereIsFiled(os: System, data: Tree, q: Path)
    requires Lawful(os) && Storable(data) && q in Copied([], AllCopies(os, data, COMPONENTS))
    ensures q in Slashed(data) && Copied([], AllCopies(os, data, COMPONENTS))[q] == Slashed(data)[q]
  {
    var copies := AllCopies(os, data, COMPONENTS);
    var i := CopiedOnly([], copies, q);
    assert copies[i] in copies;
    var p := CopyIsStored(os, data, copies[i]);
    StoredIsAcceptable(data, p);
  }

  /** What a backup copies is the deployment, each file under the name it is filed at. */
  lemma CopiedIsTheDeployment(os: System, data: Tree)
    requires Lawful(os) && Storable(data)
    ensures Copied([], AllCopies(os, data, COMPONENTS)) == Slashed(data)
  {
    var copied := Copied([], AllCopies(os, data, COMPONENTS));
    forall q | q in Slashed(data) ensures q in copied {
      FiledIsThere(os, data, q);
    }
    forall q | q in copied ensures q in Slashed(data) && Slashed(data)[q] == copied[q] {
      ThereIsFiled(os, data, q);
    }
    SameMaps(Slashed(data), copied);
  }

  lemma {:induction false} AllCopiesDistinct(os: System, data: Tree, components: seq<string>)
    requires Lawful(os) && Storable(data) && Distinct(components) && forall c :: c in components ==> c in COMPONENTS
    ensures DistinctPaths(AllCopies(os, data, components))
    decreases |components|
  {
    if components != [] {
      var c, rest := components[0], components[1..];
      assert c in components && forall d :: d in rest ==> d in components && d != c;
      var here, there := ComponentCopies(os, data, c), AllCopies(os, data, rest);
      WalkFilesIsComplete(os, data, [c]);
      ListedDistinct(data, WalkFiles(os, data, [c]).value);
      AllCopiesDistinct(os, data, rest);
      forall x, y | x in here && y in there ensures x.path != y.path {
        var d := AllCopiesOnly(os, data, rest, y);
        var p := ComponentCopyIsStored(os, data, c, x);
        var q := ComponentCopyIsStored(os, data, d, y);
        StoredIsAcceptable(data, p);
        StoredIsAcceptable(data, q);
      }
      JoinDistinctPaths(here, there);
    }
  }

  lemma JoinDistinctPaths(a: seq<Copy>, b: seq<Copy>)
    requires DistinctPaths(a) && DistinctPaths(b) && forall x, y :: x in a && y in b ==> x.path != y.path
    ensures DistinctPaths(a + b)
  {
    var s := a + b;
    forall i, j | 0 <= i < j < |s| ensures s[i].path != s[j].path {
      if i < |a| <= j {
        assert s[i] in a && s[j] in b;
      }
    }
  }

  ghost predicate DistinctFiles(files: seq<BackupFile>) {
    forall i, j :: 0 <= i < j < |files| ==> files[i].path != files[j].path
  }

  lemma InsertOnly(f: BackupFile, sorted: seq<BackupFile>, g: BackupFile)
    requires g in Insert(f, sorted)
    ensures g == f || g in sorted
  {
    InsertKeeps(f, sorted);
    assert g in multiset(Insert(f, sorted));
  }

  lemma {:induction false} InsertDistinct(f: BackupFile, sorted: seq<BackupFile>)
    requires DistinctFiles(sorted) && forall g :: g in sorted ==> g.path != f.path
    ensures DistinctFiles(Insert(f, sorted))
  {
    if sorted != [] && !Precedes(f.path, sorted[0].path) {
      var rest := Insert(f, sorted[1..]);
      InsertDistinct(f, sorted[1..]);
      forall k | 0 <= k < |rest| ensures rest[k].path != sorted[0].path {
        InsertOnly(f, sorted[1..], rest[k]);
        assert sorted[0] in sorted;
      }
      assert Insert(f, sorted) == [sorted[0]] + rest;
    }
  }

  lemma {:induction false} SortedDistinct(files: seq<BackupFile>)
    requires DistinctFiles(files)
    ensures DistinctFiles(Sorted(files))
  {
    if files != [] {
      SortedDistinct(files[1..]);
      SortedKeeps(files[1..]);
      InsertDistinct(files[0], Sorted(files[1..]));
    }
  }

  lemma {:induction false} FilesOfAt(env: Env, copies: seq<Copy>)
    ensures |FilesOf(env, copies)| == |copies|
    ensures forall i :: 0 <= i < |copies| ==> FilesOf(env, copies)[i] == FileOf(env, copies[i])
  {
    if copies != [] {
      FilesOfAt(env, copies[1..]);
    }
  }

  lemma ManifestPathsDistinct(env: Env, os: System, settings: Settings, data: Tree)
    requires Lawful(os) && Storable(data) && ManifestFor(env, os, settings, data).Ok?
    ensures DistinctFiles(ManifestFor(env, os, settings, data).value.files)
  {
    var copies := AllCopies(os, data, COMPONENTS);
    ComponentsAreDistinct();
    AllCopiesDistinct(os, data, COMPONENTS);
    FilesOfAt(env, copies);
    SortedDistinct(FilesOf(env, copies));
  }

  // ---------------------------------------------- the manifest and the files

  ghost predicate IsListed(files: seq<BackupFile>, path: string) {
    exists f :: f in files && f.path == path
  }

  lemma ListedExactly(env: Env, os: System, data: Tree, path: string)
    requires Lawful(os) && Storable(data)
    ensures IsListed(Sorted(FilesOf(env, AllCopies(os, data, COMPONENTS))), path) <==> Split(path, '/') in Slashed(data)
  {
    var files, q := Sorted(FilesOf(env, AllCopies(os, data, COMPONENTS))), Split(path, '/');
    JoinOfSplit(path, '/');
    if IsListed(files, path) {
      var f :| f in files && f.path == path;
      var r := ListedIsFiled(env, os, data, f);
    }
    if q in Slashed(data) {
      FiledIsListed(env, os, data, q);
    }
  }

  /** A manifest entry standing for one of these files. */
  ghost predicate EntryFor(env: Env, files: map<Path, Bytes>, f: BackupFile) {
    var p := Split(f.path, '/');
    && SafeRelativePath(f.path) && p in files
    && f == BackupFile(Join(p, '/'), Size(files[p]), env.digest(files[p]))
  }

  ghost predicate HasEntry(entries: seq<BackupFile>, p: Path) {
    p != [] && exists f :: f in entries && f.path == Join(p, '/')
  }

  /** The entries stand for these files, one each. */
  ghost predicate Itemizes(env: Env, entries: seq<BackupFile>, files: map<Path, Bytes>) {
    && DistinctFiles(entries)
    && (forall f {:trigger EntryFor(env, files, f)} :: f in entries ==> EntryFor(env, files, f))
    && (forall p {:trigger HasEntry(entries, p)} :: p in files ==> HasEntry(entries, p))
  }

  lemma ManifestLists(env: Env, os: System, settings: Settings, data: Tree)
    requires Lawful(os) && Storable(data) && ManifestFor(env, os, settings, data).Ok?
    ensures Itemizes(env, ManifestFor(env, os, settings, data).value.files, Slashed(data))
  {
    var entries, files := ManifestFor(env, os, settings, data).value.files, Slashed(data);
    ManifestPathsDistinct(env, os, settings, data);
    forall f | f in entries ensures EntryFor(env, files, f) {
      var q := ListedIsFiled(env, os, data, f);
    }
    forall q | q in files ensures HasEntry(entries, q) {
      FiledIsListed(env, os, data, q);
      assert EntryAt(env, q, files[q]).path == Join(q, '/');
    }
  }

  // ------------------------------------------------ when there is one to publish

  lemma RequiredListed(env: Env, os: System, data: Tree, path: string)
    requires Lawful(os) && Storable(data) && path in REQUIRED
    ensures IsListed(Sorted(FilesOf(env, AllCopies(os, data, COMPONENTS))), path) <==>
            Split(path, '/') in LiveFiles(data)
  {
    ListedExactly(env, os, data, path);
    RequiredSplit();
    TopFilesAreLive(data, Split(path, '/'));
  }

  lemma RequiredAllListed(env: Env, os: System, data: Tree)
    requires Lawful(os) && Storable(data)
    ensures (forall path :: path in REQUIRED ==>
               IsListed(Sorted(FilesOf(env, AllCopies(os, data, COMPONENTS))), path)) <==>
            (forall path :: path in REQUIRED ==> Split(path, '/') in LiveFiles(data))
  {
    forall path | path in REQUIRED
      ensures IsListed(Sorted(FilesOf(env, AllCopies(os, data, COMPONENTS))), path) <==>
              Split(path, '/') in LiveFiles(data)
    {
      RequiredListed(env, os, data, path);
    }
  }

  /**
   * A backup has a manifest to publish exactly when the required files are
   * live, the storage format record is readable and a sealing key is configured.
   */
  lemma PublishesExactly(env: Env, os: System, settings: Settings, data: Tree)
    requires Lawful(os) && Storable(data)
    ensures ManifestFor(env, os, settings, data).Ok? <==>
            && (forall path :: path in REQUIRED ==> Split(path, '/') in LiveFiles(data))
            && STORAGE_FORMAT in LiveFiles(data) && env.storageFormat(LiveFiles(data)[STORAGE_FORMAT]).Some?
            && settings.sealingKey.Some?
  {
    CopiedIsTheDeployment(os, data);
    RequiredAllListed(env, os, data);
    RequiredSplit();
    TopFilesAreLive(data, STORAGE_FORMAT);
    AssembledExactly(env, settings, Slashed(data), Sorted(FilesOf(env, AllCopies(os, data, COMPONENTS))),
                     ComponentEntries(env, os, data, COMPONENTS));
  }

  lemma AssembledExactly(env: Env, settings: Settings, copied: map<Path, Bytes>, files: seq<BackupFile>,
                         components: seq<BackupComponent>)
    ensures Assembled(env, settings, copied, files, components).Ok? <==>
            && (forall path :: path in REQUIRED ==> IsListed(files, path))
            && STORAGE_FORMAT in copied && env.storageFormat(copied[STORAGE_FORMAT]).Some?
            && settings.sealingKey.Some?
  {
    var listed := set f | f in files :: f.path;
    forall path ensures path in listed <==> IsListed(files, path) {
    }
    assert REQUIRED[0] in REQUIRED && REQUIRED[1] in REQUIRED && REQUIRED[2] in REQUIRED;
  }
}
