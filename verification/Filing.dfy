/** Under which names a backup files what it copies, and which deployments it can file at all. */
module Filing {
  import opened Text
  import opened Filesystem
  import opened Walking
  import opened Layout
  import opened Copying
  import opened Manifests
  import opened Backups
  import opened BackupContents

  /** Where a backup files `p`: each backslash is read as a separator. */
  function Filed(p: Path): Path
    requires p != []
  {
    Split(p[0] + "/" + RelativeName(p), '/')
  }

  /** What a backup copies: every component file it does not take for scratch. */
  predicate Stored(data: Tree, p: Path) {
    IsFile(data, p) && InComponent(p) && !Skipped(p)
  }

  /** A deployment a backup can hold: acceptable names, and none in the way of another. */
  ghost predicate Storable(data: Tree) {
    && WellFormed(data) && Walkable(data)
    && (forall p :: Stored(data, p) ==> SafeRelativePath(p[0] + "/" + RelativeName(p)))
    && (forall p, q :: Stored(data, p) && Stored(data, q) && Filed(p) <= Filed(q) ==> p == q)
  }

  /** The files of a deployment as a backup of it holds them. */
  ghost function Slashed(data: Tree): (files: map<Path, Bytes>)
    requires Storable(data)
    ensures forall q :: q in files ==> q != []
  {
    map p | p in data && Stored(data, p) :: Filed(p) := data[p].data
  }

  // --------------------------------------------------------------- the copies

  lemma CopyOfStaysInComponent(data: Tree, p: Path)
    requires IsFile(data, p) && InComponent(p) && ValidPath(p)
    ensures Split(CopyOf(data, p).path, '/')[0] == p[0]
  {
    assert ValidName(p[0]);
    assert CopyOf(data, p).path == p[0] + ['/'] + RelativeName(p);
    SplitPart(p[0], RelativeName(p), '/');
  }

  lemma CopyIsFiled(data: Tree, p: Path)
    requires IsFile(data, p) && InComponent(p) && ValidPath(p)
    ensures Target([], CopyOf(data, p)) == Filed(p) && Filed(p)[0] == p[0]
  {
    CopyOfStaysInComponent(data, p);
    assert [] + Filed(p) == Filed(p);
  }

  lemma StoredIsCopied(os: System, data: Tree, p: Path)
    requires Lawful(os) && WellFormed(data) && Walkable(data) && Stored(data, p)
    ensures CopyOf(data, p) in ComponentCopies(os, data, p[0])
    ensures CopyOf(data, p) in AllCopies(os, data, COMPONENTS)
  {
    WalkFilesIsComplete(os, data, [p[0]]);
    assert [p[0]] <= p;
    CopiesOfHas(data, WalkFiles(os, data, [p[0]]).value, p);
    AllCopiesHas(os, data, COMPONENTS, p[0], CopyOf(data, p));
  }

  lemma ComponentCopyIsStored(os: System, data: Tree, component: string, c: Copy) returns (p: Path)
    requires Lawful(os) && WellFormed(data) && component in COMPONENTS && c in ComponentCopies(os, data, component)
    ensures Stored(data, p) && p[0] == component && c == CopyOf(data, p) && Target([], c) == Filed(p)
  {
    WalkFilesIsComplete(os, data, [component]);
    p := CopiesOfOnly(data, WalkFiles(os, data, [component]).value, c);
    assert p[0] == component;
    CopyIsFiled(data, p);
  }

  lemma CopyIsStored(os: System, data: Tree, c: Copy) returns (p: Path)
    requires Lawful(os) && WellFormed(data) && c in AllCopies(os, data, COMPONENTS)
    ensures Stored(data, p) && c == CopyOf(data, p) && Target([], c) == Filed(p)
  {
    var component := AllCopiesOnly(os, data, COMPONENTS, c);
    p := ComponentCopyIsStored(os, data, component, c);
  }

  lemma StoredIsAcceptable(data: Tree, p: Path)
    requires Storable(data) && Stored(data, p)
    ensures Acceptable(CopyOf(data, p)) && Filed(p) in Slashed(data) && Slashed(data)[Filed(p)] == data[p].data
    ensures |Filed(p)| >= 2 && Filed(p)[0] == p[0] && ValidPath(Filed(p)) && PlainPath(Filed(p))
    ensures Join(Filed(p), '/') == CopyOf(data, p).path
  {
    SafePathStaysInside(CopyOf(data, p).path);
    CopyIsFiled(data, p);
  }

  /** Which file is filed at `q`. */
  lemma FiledFrom(data: Tree, q: Path) returns (p: Path)
    requires Storable(data) && q in Slashed(data)
    ensures Stored(data, p) && Filed(p) == q && data[p].data == Slashed(data)[q]
  {
    p :| Stored(data, p) && Filed(p) == q;
  }

  lemma SlashedNamed(data: Tree)
    requires Storable(data)
    ensures forall q :: q in Slashed(data) ==> |q| >= 2 && InComponent(q) && ValidPath(q) && PlainPath(q)
  {
    forall q | q in Slashed(data) ensures |q| >= 2 && InComponent(q) && ValidPath(q) && PlainPath(q) {
      var p := FiledFrom(data, q);
      StoredIsAcceptable(data, p);
    }
  }

  // --------------------------------------------- what copying leaves

  lemma PlusAssoc<K, V>(a: map<K, V>, b: map<K, V>, c: map<K, V>)
    ensures (a + b) + c == a + (b + c)
  {
  }

  function First(base: Path, c: Copy): map<Path, Bytes> {
    if c.data.Some? then map[Target(base, c) := c.data.value] else map[]
  }

  lemma {:induction false} CopiedConcat(base: Path, a: seq<Copy>, b: seq<Copy>)
    ensures Copied(base, a + b) == Copied(base, a) + Copied(base, b)
  {
    if a == [] {
      assert a + b == b;
    } else {
      assert (a + b)[1..] == a[1..] + b && (a + b)[0] == a[0];
      CopiedConcat(base, a[1..], b);
      PlusAssoc(First(base, a[0]), Copied(base, a[1..]), Copied(base, b));
    }
  }

  lemma TreeEffect(os: System, t: Tree, data: Tree, component: string)
    requires Lawful(os) && WellFormed(data) && Executes(t, TreeOps(os, data, component))
    ensures Files(After(t, TreeOps(os, data, component))) == Files(t) + Copied([], ComponentCopies(os, data, component))
    ensures Files(t).Keys !! Copied([], ComponentCopies(os, data, component)).Keys
    ensures forall c :: c in ComponentCopies(os, data, component) ==> Acceptable(c)
  {
    AfterConcat(t, Guard(WalkFiles(os, data, [component]).Some?),
                CopyAllOps(os, [], ComponentCopies(os, data, component)));
    CopiesEffect(os, t, [], ComponentCopies(os, data, component));
  }

  lemma ComponentEffect(os: System, t: Tree, data: Tree, component: string)
    requires Lawful(os) && WellFormed(data) && Executes(t, ComponentOps(os, data, component))
    ensures Files(After(t, ComponentOps(os, data, component))) ==
            Files(t) + Copied([], ComponentCopies(os, data, component))
    ensures Files(t).Keys !! Copied([], ComponentCopies(os, data, component)).Keys
    ensures forall c :: c in ComponentCopies(os, data, component) ==> Acceptable(c)
  {
    var u := Apply(t, MakeDirs([component]));
    AfterConcat(t, [MakeDirs([component])], TreeOps(os, data, component));
    AfterOne(t, MakeDirs([component]));
    assert Files(u) == Files(t);
    TreeEffect(os, u, data, component);
  }

  lemma {:induction false} ComponentsEffect(os: System, t: Tree, data: Tree, components: seq<string>)
    requires Lawful(os) && WellFormed(data) && Executes(t, ComponentsOps(os, data, components))
    ensures Files(After(t, ComponentsOps(os, data, components))) ==
            Files(t) + Copied([], AllCopies(os, data, components))
    ensures Files(t).Keys !! Copied([], AllCopies(os, data, components)).Keys
    ensures forall c :: c in AllCopies(os, data, components) ==> Acceptable(c)
    decreases |components|
  {
    if components != [] {
      var c, rest := components[0], components[1..];
      var u := After(t, ComponentOps(os, data, c));
      AfterConcat(t, ComponentOps(os, data, c), ComponentsOps(os, data, rest));
      ComponentEffect(os, t, data, c);
      ComponentsEffect(os, u, data, rest);
      var here, there := ComponentCopies(os, data, c), AllCopies(os, data, rest);
      CopiedConcat([], here, there);
      PlusAssoc(Files(t), Copied([], here), Copied([], there));
    }
  }

  /** A component that could not be walked stops the copy. */
  lemma {:induction false} ComponentsWalkable(os: System, t: Tree, data: Tree, components: seq<string>)
    requires Lawful(os) && WellFormed(data) && Executes(t, ComponentsOps(os, data, components))
    ensures forall c :: c in components ==> !IsFile(data, [c])
    decreases |components|
  {
    if components != [] {
      var c, rest := components[0], components[1..];
      var make, guard, copies := [MakeDirs([c])], Guard(WalkFiles(os, data, [c]).Some?),
          CopyAllOps(os, [], ComponentCopies(os, data, c));
      AfterConcat(t, ComponentOps(os, data, c), ComponentsOps(os, data, rest));
      AfterConcat(t, make + guard, copies);
      AfterConcat(t, make, guard);
      WalkFilesIsComplete(os, data, [c]);
      ComponentsWalkable(os, After(t, ComponentOps(os, data, c)), data, rest);
    }
  }

  // ------------------------------------------------ copied means storable

  lemma TwoCopies(data: Tree, files: seq<Path>, p: Path, q: Path)
    requires forall r :: r in files ==> IsFile(data, r) && r != []
    requires p in files && q in files && !Skipped(p) && !Skipped(q) && p != q
    requires DistinctPaths(CopiesOf(data, files))
    ensures CopyOf(data, p).path != CopyOf(data, q).path
    decreases |files|
  {
    var rest := files[1..];
    assert forall r :: r in rest ==> r in files;
    var here, there := CopiesOf(data, files), CopiesOf(data, rest);
    assert there == here[|here| - |there|..];
    if files[0] == p {
      CopiesOfHas(data, rest, q);
      assert here[0] == CopyOf(data, p) && here[1..] == there;
    } else if files[0] == q {
      CopiesOfHas(data, rest, p);
      assert here[0] == CopyOf(data, q) && here[1..] == there;
    } else {
      TwoCopies(data, rest, p, q);
    }
  }

  lemma {:induction false} ComponentsDistinct(os: System, t: Tree, data: Tree, components: seq<string>)
    requires Lawful(os) && WellFormed(data) && Executes(t, ComponentsOps(os, data, components))
    ensures forall c :: c in components ==> DistinctPaths(ComponentCopies(os, data, c))
    decreases |components|
  {
    if components != [] {
      var c, rest := components[0], components[1..];
      var copies := ComponentCopies(os, data, c);
      var head := [MakeDirs([c])] + Guard(WalkFiles(os, data, [c]).Some?);
      AfterConcat(t, ComponentOps(os, data, c), ComponentsOps(os, data, rest));
      assert ComponentOps(os, data, c) == head + CopyAllOps(os, [], copies);
      AfterConcat(t, head, CopyAllOps(os, [], copies));
      CopiesDistinct(os, After(t, head), [], copies);
      ComponentsDistinct(os, After(t, ComponentOps(os, data, c)), data, rest);
    }
  }

  lemma FiledApart(os: System, data: Tree, p: Path, q: Path)
    requires Lawful(os) && WellFormed(data) && Walkable(data) && Stored(data, p) && Stored(data, q)
    requires Filed(p) == Filed(q)
    requires forall c :: c in COMPONENTS ==> DistinctPaths(ComponentCopies(os, data, c))
    ensures p == q
  {
    CopyIsFiled(data, p);
    CopyIsFiled(data, q);
    TargetInjective([], CopyOf(data, p), CopyOf(data, q));
    WalkFilesIsComplete(os, data, [p[0]]);
    assert [p[0]] <= p && [p[0]] <= q;
    if p != q {
      TwoCopies(data, WalkFiles(os, data, [p[0]]).value, p, q);
    }
  }

  /** Copying that reached its end was of a deployment a backup can hold. */
  lemma CopiedMeansStorable(os: System, t: Tree, data: Tree)
    requires Lawful(os) && WellFormed(data) && WellFormed(t) && Executes(t, ComponentsOps(os, data, COMPONENTS))
    ensures Storable(data)
  {
    var ops, copies := ComponentsOps(os, data, COMPONENTS), AllCopies(os, data, COMPONENTS);
    var u := After(t, ops);
    ComponentsWalkable(os, t, data, COMPONENTS);
    ComponentsEffect(os, t, data, COMPONENTS);
    ComponentsDistinct(os, t, data, COMPONENTS);
    AfterWellFormed(t, ops);
    forall p | Stored(data, p)
      ensures SafeRelativePath(p[0] + "/" + RelativeName(p)) && IsFile(u, Filed(p))
    {
      StoredIsCopied(os, data, p);
      CopyIsFiled(data, p);
      ThereOnceCopied(copies, CopyOf(data, p));
      assert Filed(p) in Files(u);
    }
    forall p, q | Stored(data, p) && Stored(data, q) && Filed(p) <= Filed(q) ensures p == q {
      FilesAreLeaves(u, Filed(p), Filed(q));
      FiledApart(os, data, p, q);
    }
  }

  lemma ThereOnceCopied(copies: seq<Copy>, c: Copy)
    requires c in copies && c.data.Some?
    ensures Target([], c) in Copied([], copies)
  {
    var i :| 0 <= i < |copies| && copies[i] == c;
    CopiedHas([], copies, i);
  }

  // ------------------------------------------------------------ plain names

  /** Paths short enough for a manifest. */
  ghost predicate ShortNames(data: Tree) {
    forall p :: p in LiveFiles(data) ==> ByteLength(Join(p, '/')) <= 1024
  }

  lemma PlainIsFiledAsIs(data: Tree, p: Path)
    requires WellFormed(data) && Walkable(data) && IsFile(data, p) && InComponent(p) && PlainPath(p)
    ensures Filed(p) == p && p[0] + "/" + RelativeName(p) == Join(p, '/')
    ensures Stored(data, p) <==> p in LiveFiles(data)
    ensures |p| >= 2 && ByteLength(Join(p, '/')) <= 1024 ==> SafeRelativePath(Join(p, '/'))
  {
    InsideComponent(data, p);
    PlainTail(p);
    SkippedIsScratch(p);
    LogicalOfPlain(p);
    assert Logical(p) == Join(p, '/');
    assert ValidName(p[0]);
    assert Join(p, '/')[0] == p[0][0] != '/';
    forall i | 1 <= i < |p| ensures SafeSegment(p[i]) {
      assert p[i] in p;
      assert ValidName(p[i]) && '\\' !in p[i];
    }
  }

  lemma StoredIsLive(data: Tree, p: Path)
    requires WellFormed(data) && Walkable(data) && Stored(data, p)
    ensures p in LiveFiles(data)
  {
    InsideComponent(data, p);
    if IsScratch(p) {
      ScratchIsSkipped(p);
    }
  }

  /** Without backslashes, only the length of a name can stand in the way. */
  lemma PlainIsStorable(data: Tree)
    requires WellFormed(data) && Walkable(data) && PlainLive(data)
    ensures Storable(data) <==> ShortNames(data)
  {
    forall p | Stored(data, p) ensures p in LiveFiles(data) && Filed(p) == p {
      StoredIsLive(data, p);
      PlainIsFiledAsIs(data, p);
    }
    forall p | p in LiveFiles(data)
      ensures Stored(data, p) && Filed(p) == p && p[0] + "/" + RelativeName(p) == Join(p, '/')
      ensures SafeRelativePath(Join(p, '/')) <==> ByteLength(Join(p, '/')) <= 1024
    {
      PlainIsFiledAsIs(data, p);
    }
    forall p, q | Stored(data, p) && Stored(data, q) && Filed(p) <= Filed(q) ensures p == q {
      FilesAreLeaves(data, p, q);
    }
  }

  lemma FiledIsLive(data: Tree, q: Path)
    requires Storable(data) && PlainLive(data) && q in Slashed(data)
    ensures q in LiveFiles(data)
  {
    var p := FiledFrom(data, q);
    StoredIsLive(data, p);
    PlainIsFiledAsIs(data, p);
  }

  /** A backup holds the live files under their own names exactly when none has a backslash in it. */
  lemma SlashedIsLiveExactly(data: Tree)
    requires Storable(data)
    ensures Slashed(data) == LiveFiles(data) <==> PlainLive(data)
  {
    SlashedNamed(data);
    if PlainLive(data) {
      forall p | p in LiveFiles(data) ensures p in Slashed(data) && Slashed(data)[p] == LiveFiles(data)[p] {
        PlainIsFiledAsIs(data, p);
        StoredIsAcceptable(data, p);
      }
      forall q | q in Slashed(data) ensures q in LiveFiles(data) {
        FiledIsLive(data, q);
      }
    }
  }

  // ------------------------------------------------------- files of a component's top

  lemma ReplacedKeeps(s: string)
    requires '/' !in Replace(s, '\\', '/')
    ensures '/' !in s && '\\' !in s && Replace(s, '\\', '/') == s
  {
    var r := Replace(s, '\\', '/');
    forall i | 0 <= i < |s| ensures s[i] != '/' && s[i] != '\\' {
      assert r[i] in r;
    }
  }

  /** A file directly inside its component is filed as it is, and nothing else is filed there. */
  lemma TopFilesAreLive(data: Tree, q: Path)
    requires Storable(data) && |q| == 2 && PlainPath(q)
    ensures q in Slashed(data) <==> q in LiveFiles(data)
    ensures q in Slashed(data) ==> Slashed(data)[q] == LiveFiles(data)[q]
  {
    if q in LiveFiles(data) {
      PlainIsFiledAsIs(data, q);
      StoredIsAcceptable(data, q);
    }
    if q in Slashed(data) {
      var p := FiledFrom(data, q);
      TopFiledAsIs(data, p);
      StoredIsLive(data, p);
      StoredIsAcceptable(data, p);
    }
  }

  lemma TopFiledAsIs(data: Tree, p: Path)
    requires WellFormed(data) && Walkable(data) && Stored(data, p) && |Filed(p)| == 2
    ensures Filed(p) == p
  {
    InsideComponent(data, p);
    assert ValidName(p[0]);
    assert p[0] + "/" + RelativeName(p) == p[0] + ['/'] + RelativeName(p);
    SplitPart(p[0], RelativeName(p), '/');
    var last := Split(RelativeName(p), '/');
    assert |last| == 1;
    JoinOfSplit(RelativeName(p), '/');
    assert last[0] in last;
    ReplacedKeeps(Join(p[1..], '/'));
    JoinKeepsOne(p[1..]);
    assert p == [p[0]] + p[1..];
  }

  lemma JoinKeepsOne(p: Path)
    requires p != []
    ensures '/' !in Join(p, '/') ==> p == [Join(p, '/')]
  {
    assert |p| > 1 ==> Join(p, '/')[|p[0]|] == '/';
  }

  // ---------------------------------------------------------------- manifest

  /** The entry a manifest has for a file filed at `q`. */
  function EntryAt(env: Env, q: Path, data: Bytes): BackupFile
    requires q != []
  {
    BackupFile(Join(q, '/'), Size(data), env.digest(data))
  }

  lemma ListedIsFiled(env: Env, os: System, data: Tree, f: BackupFile) returns (q: Path)
    requires Lawful(os) && Storable(data) && f in Sorted(FilesOf(env, AllCopies(os, data, COMPONENTS)))
    ensures q in Slashed(data) && f == EntryAt(env, q, Slashed(data)[q])
    ensures SafeRelativePath(f.path) && Split(f.path, '/') == q
  {
    var copies := AllCopies(os, data, COMPONENTS);
    SortedKeeps(FilesOf(env, copies));
    var c := FilesOfOnly(env, copies, f);
    var p := CopyIsStored(os, data, c);
    StoredIsAcceptable(data, p);
    q := Filed(p);
  }

  lemma FiledIsListed(env: Env, os: System, data: Tree, q: Path)
    requires Lawful(os) && Storable(data) && q in Slashed(data)
    ensures EntryAt(env, q, Slashed(data)[q]) in Sorted(FilesOf(env, AllCopies(os, data, COMPONENTS)))
  {
    var copies := AllCopies(os, data, COMPONENTS);
    var p := FiledFrom(data, q);
    StoredIsAcceptable(data, p);
    StoredIsCopied(os, data, p);
    FilesOfHas(env, copies, CopyOf(data, p));
    SortedKeeps(FilesOf(env, copies));
  }

  /** The manifest of a backup describes exactly the files as it holds them. */
  lemma ManifestDescribes(env: Env, os: System, settings: Settings, data: Tree)
    requires Lawful(os) && Storable(data) && ManifestFor(env, os, settings, data).Ok?
    ensures var m := ManifestFor(env, os, settings, data).value;
            m.formatVersion == FORMAT_VERSION && EntriesOf(m) == InventoryOf(env, Slashed(data))
  {
    var m, files := ManifestFor(env, os, settings, data).value, Slashed(data);
    forall e | e in EntriesOf(m) ensures e in InventoryOf(env, files) {
      var f :| f in m.files && e == (f.path, f.size, f.sha256);
      var q := ListedIsFiled(env, os, data, f);
    }
    forall e | e in InventoryOf(env, files) ensures e in EntriesOf(m) {
      var q :| q in files && e == (Join(q, '/'), Size(files[q]), env.digest(files[q]));
      FiledIsListed(env, os, data, q);
    }
  }
}
