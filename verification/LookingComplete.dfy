/**
 * Interrupted backups that look complete: exactly when a destination can be left
 * with a manifest and without the marker, and a run in which it is.
 */
module LookingComplete {
  import opened Wrappers
  import opened Sequences
  import opened Text
  import opened Filesystem
  import opened Layout
  import opened Copying
  import opened Manifests
  import opened Verification
  import opened Backups
  import opened Filing
  import opened BackupSafety
  import opened BackupEffect
  import opened BackupRuns
  import opened RoundTrip
  import opened Deployment
  import opened DeploymentRuns
  import opened RunBuilding

  // ------------------------------------------------------------- exactly when

  /** Clearing removes a path exactly when it names it, and brings none back. */
  lemma {:induction false} ClearingExactly(t: Tree, ops: seq<Op>, p: Path)
    requires OnlyClears(ops) && Executes(t, ops) && p != []
    ensures p in After(t, ops) <==> p in t && Unlink(p) !in ops
    ensures p in After(t, ops) ==> After(t, ops)[p] == t[p]
    decreases |ops|
  {
    if ops != [] {
      var u := Apply(t, ops[0]);
      assert ops[0] in ops && forall op :: op in ops <==> op == ops[0] || op in ops[1..];
      assert p in u <==> p in t && ops[0] != Unlink(p);
      ClearingExactly(u, ops[1..], p);
    }
  }

  lemma PreparingLooks(os: System, dest: Tree, replace: bool, done: seq<Op>)
    requires WellFormed(dest) && done <= PrepareOps(os, dest, replace) && Executes(dest, done)
    ensures Complete(After(dest, done)) <==>
            Complete(dest) || (&& replace && [INCOMPLETE] in dest && IsFile(dest, [MANIFEST])
                               && Unlink([INCOMPLETE]) in done && Unlink([MANIFEST]) !in done)
  {
    PrepareOnlyClears(os, dest, replace, done);
    ClearingExactly(dest, done, [MANIFEST]);
    ClearingExactly(dest, done, [INCOMPLETE]);
    assert forall op :: op in done ==> op in PrepareOps(os, dest, replace);
    if Complete(dest) {
      CompleteIsRefused(os, dest, replace);
      assert done == [];
    }
  }

  lemma StillIncomplete(env: Env, os: System, settings: Settings, data: Tree, done: seq<Op>)
    requires Lawful(os) && WellFormed(data) && Executes(EMPTY, done)
    requires done < CopyPhase(os, settings, data) + PublishOps(env, os, settings, data)
    ensures !Complete(After(EMPTY, done))
  {
    var copy, publish := CopyPhase(os, settings, data), PublishOps(env, os, settings, data);
    PrefixSplit(done, copy, publish);
    if done <= copy {
      NoManifestYet(os, settings, data, done);
    } else {
      var rest := done[|copy|..];
      AfterConcat(EMPTY, copy, rest);
      CopyPhaseEffect(os, settings, data);
      assert [INCOMPLETE] in Files(After(EMPTY, copy));
      assert rest < publish;
      StillMarked(env, os, settings, data, After(EMPTY, copy), rest);
    }
  }

  lemma StillMarked(env: Env, os: System, settings: Settings, data: Tree, t: Tree, done: seq<Op>)
    requires Lawful(os) && WellFormed(data) && Executes(t, done) && [INCOMPLETE] in t
    requires done < PublishOps(env, os, settings, data)
    ensures [INCOMPLETE] in After(t, done)
  {
    if done != [] {
      var write := WriteOps(os, [MANIFEST], env.encode(ManifestFor(env, os, settings, data).value));
      NamesDiffer();
      AppendsTouch(os, [MANIFEST], env.encode(ManifestFor(env, os, settings, data).value), 0, INCOMPLETE);
      assert done <= write;
      assert forall op :: op in done ==> op in write;
      Frame(t, done, INCOMPLETE);
      assert SameAt(t, After(t, done), [INCOMPLETE]);
    }
  }

  lemma ClearedAway(os: System, dest: Tree, replace: bool)
    requires Lawful(os) && WellFormed(dest) && Executes(dest, PrepareOps(os, dest, replace))
    ensures !Complete(dest)
    ensures replace && [INCOMPLETE] in dest && [MANIFEST] in dest ==>
            Unlink([MANIFEST]) in PrepareOps(os, dest, replace)
  {
    if Complete(dest) {
      CompleteIsRefused(os, dest, replace);
    }
    if replace && [INCOMPLETE] in dest && [MANIFEST] in dest {
      var order := os.removal(dest, []);
      assert IsRemovalOrder(dest, [], order);
      assert [] <= [MANIFEST];
      AncestorsAreDirs(dest, [], [MANIFEST]);
      assert [MANIFEST] in order;
      var i := IndexOf(order, [MANIFEST]);
      assert Unlinks(order)[i] == Unlink([MANIFEST]);
    }
  }

  /**
   * A backup stopped before its end leaves what looks complete exactly when the
   * destination already did, or when it was clearing an unfinished attempt that
   * had got as far as its manifest, and has removed the marker but not yet the
   * manifest.
   */
  lemma LooksCompleteExactly(env: Env, os: System, settings: Settings, data: Tree, dest: Tree, replace: bool,
                             done: seq<Op>)
    requires Lawful(os) && WellFormed(data) && WellFormed(dest)
    requires done < BackupScript(env, os, settings, data, dest, replace) && Executes(dest, done)
    ensures Complete(After(dest, done)) <==>
            Complete(dest) || (&& replace && [INCOMPLETE] in dest && IsFile(dest, [MANIFEST])
                               && Unlink([INCOMPLETE]) in done && Unlink([MANIFEST]) !in done)
  {
    var prepare, rest := PrepareOps(os, dest, replace),
        CopyPhase(os, settings, data) + PublishOps(env, os, settings, data);
    PrefixSplit(done, prepare, rest);
    if done <= prepare {
      PreparingLooks(os, dest, replace, done);
    } else {
      AfterConcat(dest, prepare, done[|prepare|..]);
      PrepareLeavesEmpty(os, dest, replace);
      StillIncomplete(env, os, settings, data, done[|prepare|..]);
      ClearedAway(os, dest, replace);
      assert forall op :: op in prepare ==> op in done;
    }
  }

  /** Stopped here, the backup leaves what looks complete. */
  ghost predicate LeavesComplete(dest: Tree, script: seq<Op>, done: seq<Op>) {
    done < script && Executes(dest, done) && Complete(After(dest, done))
  }

  /** Some part of the order has taken `a` and not yet `b`. */
  ghost predicate Takes(order: seq<Path>, a: Path, b: Path, k: nat) {
    k <= |order| && a in order[..k] && b !in order[..k]
  }

  lemma AllTaken(order: seq<Path>, done: seq<Op>, p: Path)
    requires done <= Unlinks(order) + [MakeDirs([])] && p in order && |done| >= |order|
    ensures Unlink(p) in done
  {
    var i := IndexOf(order, p);
    assert done[i] == Unlink(p);
  }

  lemma TakenBefore(order: seq<Path>, done: seq<Op>, a: Path, b: Path)
    requires done <= Unlinks(order) + [MakeDirs([])] && Unlink(a) in done && Unlink(b) !in done && b in order
    ensures exists k: nat :: Takes(order, a, b, k)
  {
    if |done| >= |order| {
      AllTaken(order, done, b);
    }
    assert done == Unlinks(order)[..|done|] == Unlinks(order[..|done|]);
    var i := IndexOf(done, Unlink(a));
    assert order[..|done|][i] == a;
    forall i | 0 <= i < |done| ensures order[..|done|][i] != b {
      assert done[i] in done;
    }
    assert Takes(order, a, b, |done|);
  }

  lemma ClearingOps(os: System, dest: Tree)
    requires WellFormed(dest) && [INCOMPLETE] in dest
    ensures PrepareOps(os, dest, true) == Unlinks(os.removal(dest, [])) + [MakeDirs([])]
  {
    assert [] <= [INCOMPLETE];
    AncestorsAreDirs(dest, [], [INCOMPLETE]);
  }

  lemma OnlyWhileClearing(env: Env, os: System, settings: Settings, data: Tree, dest: Tree, done: seq<Op>)
    requires Lawful(os) && WellFormed(data) && WellFormed(dest) && [INCOMPLETE] in dest && [MANIFEST] in dest
    requires done < BackupScript(env, os, settings, data, dest, true) && Executes(dest, done)
    requires Unlink([INCOMPLETE]) in done && Unlink([MANIFEST]) !in done
    ensures exists k: nat :: Takes(os.removal(dest, []), [INCOMPLETE], [MANIFEST], k)
  {
    var prepare, rest := PrepareOps(os, dest, true),
        CopyPhase(os, settings, data) + PublishOps(env, os, settings, data);
    PrefixSplit(done, prepare, rest);
    ClearingOps(os, dest);
    assert [] <= [MANIFEST];
    assert IsRemovalOrder(dest, [], os.removal(dest, []));
    if done <= prepare {
      TakenBefore(os.removal(dest, []), done, [INCOMPLETE], [MANIFEST]);
    } else {
      PastClearing(os, dest, done);
    }
  }

  lemma PastClearing(os: System, dest: Tree, done: seq<Op>)
    requires Lawful(os) && WellFormed(dest) && [INCOMPLETE] in dest && [MANIFEST] in dest
    requires PrepareOps(os, dest, true) <= done && Executes(dest, done)
    ensures Unlink([MANIFEST]) in done
  {
    ExecutesPrefix(dest, PrepareOps(os, dest, true), done);
    ClearedAway(os, dest, true);
    assert forall op :: op in PrepareOps(os, dest, true) ==> op in done;
  }

  lemma ClearingLeavesComplete(env: Env, os: System, settings: Settings, data: Tree, dest: Tree, k: nat)
    requires Lawful(os) && WellFormed(data) && WellFormed(dest) && [INCOMPLETE] in dest && IsFile(dest, [MANIFEST])
    requires Takes(os.removal(dest, []), [INCOMPLETE], [MANIFEST], k)
    ensures exists done :: LeavesComplete(dest, BackupScript(env, os, settings, data, dest, true), done)
  {
    var script := BackupScript(env, os, settings, data, dest, true);
    ClearingPrefix(env, os, settings, data, dest, k);
    assert Complete(After(dest, script[..k]));
    assert LeavesComplete(dest, script, script[..k]);
  }

  lemma OnlyClearingLeavesComplete(env: Env, os: System, settings: Settings, data: Tree, dest: Tree, replace: bool,
                                   done: seq<Op>)
    requires Lawful(os) && WellFormed(data) && WellFormed(dest) && !Complete(dest)
    requires LeavesComplete(dest, BackupScript(env, os, settings, data, dest, replace), done)
    ensures replace && [INCOMPLETE] in dest && IsFile(dest, [MANIFEST])
    ensures exists k: nat :: Takes(os.removal(dest, []), [INCOMPLETE], [MANIFEST], k)
  {
    LooksCompleteExactly(env, os, settings, data, dest, replace, done);
    OnlyWhileClearing(env, os, settings, data, dest, done);
  }

  /**
   * Whether a backup can be stopped so as to leave what looks complete is decided
   * before it starts: it may replace an unfinished attempt that got as far as its
   * manifest, and the system removes that attempt's marker before the manifest.
   */
  lemma CanLookCompleteExactly(env: Env, os: System, settings: Settings, data: Tree, dest: Tree, replace: bool)
    requires Lawful(os) && WellFormed(data) && WellFormed(dest) && !Complete(dest)
    ensures (exists done :: LeavesComplete(dest, BackupScript(env, os, settings, data, dest, replace), done)) <==>
            && replace && [INCOMPLETE] in dest && IsFile(dest, [MANIFEST])
            && exists k: nat :: Takes(os.removal(dest, []), [INCOMPLETE], [MANIFEST], k)
  {
    if done :| LeavesComplete(dest, BackupScript(env, os, settings, data, dest, replace), done) {
      OnlyClearingLeavesComplete(env, os, settings, data, dest, replace, done);
    }
    if replace && [INCOMPLETE] in dest && IsFile(dest, [MANIFEST]) {
      if k: nat :| Takes(os.removal(dest, []), [INCOMPLETE], [MANIFEST], k) {
        ClearingLeavesComplete(env, os, settings, data, dest, k);
      }
    }
  }

  // ---------------------------------------------------------------- how it looks

  /** Has a manifest, has no marker, passes the manifest level, and still is not a backup. */
  ghost predicate OnlyLooksComplete(env: Env, t: Tree) {
    Complete(t) && Usable(env, t, ManifestOnly, None) && !Usable(env, t, Checksums, None)
  }

  /**
   * Why the manifest level is not enough: clearing an abandoned attempt removes
   * its files in whatever order the system likes.  If the marker and a listed
   * file go before the manifest does, an interruption leaves a directory that
   * only looks complete.
   */
  lemma AbandonedAttemptCanLookComplete(env: Env, os: System, settings: Settings, data: Tree, dest: Tree,
                                        f: BackupFile, k: nat)
    requires Lawful(os) && WellFormed(data) && WellFormed(dest)
    requires [INCOMPLETE] in dest && IsFile(dest, [MANIFEST]) && ReadManifest(env, dest).Ok?
    requires var m := ReadManifest(env, dest).value;
             m.formatVersion != 1 && Structured(m) && !m.encrypted && f in m.files
    requires k <= |os.removal(dest, [])|
    requires var gone := os.removal(dest, [])[..k];
             [INCOMPLETE] in gone && Split(f.path, '/') in gone && [MANIFEST] !in gone
    ensures k <= |BackupScript(env, os, settings, data, dest, true)|
    ensures Executes(dest, BackupScript(env, os, settings, data, dest, true)[..k])
    ensures OnlyLooksComplete(env, After(dest, BackupScript(env, os, settings, data, dest, true)[..k]))
  {
    ClearingPrefix(env, os, settings, data, dest, k);
    LooksComplete(env, dest, dest - (set q | q in os.removal(dest, [])[..k]), f);
  }

  /** Interrupted after `k` removals, clearing has taken exactly the first `k` entries of its order. */
  lemma ClearingPrefix(env: Env, os: System, settings: Settings, data: Tree, dest: Tree, k: nat)
    requires Lawful(os) && WellFormed(data) && WellFormed(dest)
    requires [INCOMPLETE] in dest && k <= |os.removal(dest, [])|
    ensures k < |BackupScript(env, os, settings, data, dest, true)|
    ensures var done := BackupScript(env, os, settings, data, dest, true)[..k];
            Executes(dest, done) && After(dest, done) == dest - (set q | q in os.removal(dest, [])[..k])
  {
    ClearingSome(os, dest, k);
    TakeFirst(PrepareOps(os, dest, true), CopyPhase(os, settings, data) + PublishOps(env, os, settings, data), k);
  }

  lemma ClearingSome(os: System, dest: Tree, k: nat)
    requires Lawful(os) && WellFormed(dest) && [INCOMPLETE] in dest && k <= |os.removal(dest, [])|
    ensures k < |PrepareOps(os, dest, true)|
    ensures var done := PrepareOps(os, dest, true)[..k];
            Executes(dest, done) && After(dest, done) == dest - (set q | q in os.removal(dest, [])[..k])
  {
    var order := os.removal(dest, []);
    ClearingOps(os, dest);
    TakeFirst(Unlinks(order), [MakeDirs([])], k);
    assert Unlinks(order)[..k] == Unlinks(order[..k]);
    assert IsRemovalOrder(dest, [], order);
    RemovalExecutes(dest, [], order, k);
    AfterUnlinks(dest, order[..k]);
  }

  lemma TakeFirst<T>(a: seq<T>, b: seq<T>, k: nat)
    requires k <= |a|
    ensures (a + b)[..k] == a[..k]
  {
  }

  lemma LooksComplete(env: Env, t: Tree, u: Tree, f: BackupFile)
    requires IsFile(t, [MANIFEST]) && ReadManifest(env, t).Ok?
    requires var m := ReadManifest(env, t).value;
             m.formatVersion != 1 && Structured(m) && !m.encrypted && f in m.files
    requires [INCOMPLETE] !in u && Split(f.path, '/') !in u && SameAt(t, u, [MANIFEST])
    ensures OnlyLooksComplete(env, u)
  {
    assert ReadManifest(env, u) == ReadManifest(env, t);
    assert !Intact(env, u, ReadManifest(env, u).value, f);
  }

  // ------------------------------------------------------------- it can happen

  function Without(order: seq<Path>, p: Path): (rest: seq<Path>)
    ensures forall q :: q in rest <==> q in order && q != p
  {
    if order == [] then []
    else (if order[0] == p then [] else [order[0]]) + Without(order[1..], p)
  }

  ghost predicate ChildrenFirst(order: seq<Path>) {
    forall i, j :: 0 <= i < j < |order| ==> !(order[i] <= order[j])
  }

  lemma OneMoreFirst(p: Path, rest: seq<Path>)
    requires ChildrenFirst(rest) && forall q :: q in rest ==> !(p <= q)
    ensures ChildrenFirst([p] + rest)
  {
    var all := [p] + rest;
    forall i, j | 0 <= i < j < |all| ensures !(all[i] <= all[j]) {
      assert all[j] == rest[j - 1] && all[j] in rest;
      assert i > 0 ==> all[i] == rest[i - 1];
    }
  }

  lemma {:induction false} WithoutKeepsOrder(order: seq<Path>, p: Path)
    requires ChildrenFirst(order)
    ensures ChildrenFirst(Without(order, p))
  {
    if order != [] {
      var rest := Without(order[1..], p);
      assert ChildrenFirst(order[1..]) by {
        assert forall i :: 0 <= i < |order[1..]| ==> order[1..][i] == order[i + 1];
      }
      WithoutKeepsOrder(order[1..], p);
      if order[0] == p {
        assert Without(order, p) == rest;
      } else {
        forall q | q in rest ensures !(order[0] <= q) {
          var k := IndexOf(order[1..], q);
          assert order[k + 1] == q;
        }
        OneMoreFirst(order[0], rest);
      }
    }
  }

  /** A childless entry may as well be removed first. */
  lemma LeafFirst(t: Tree, order: seq<Path>, leaf: Path)
    requires IsRemovalOrder(t, [], order) && leaf in t && Childless(t, leaf)
    ensures IsRemovalOrder(t, [], [leaf] + Without(order, leaf))
  {
    assert ChildrenFirst(order);
    WithoutKeepsOrder(order, leaf);
    OneMoreFirst(leaf, Without(order, leaf));
    assert [] <= leaf;
  }

  /** A system that removes one tree in an order of its own. */
  function Removing(os: System, t: Tree, order: seq<Path>): System {
    os.(removal := (u, root) => if u == t && root == [] then order else os.removal(u, root))
  }

  lemma RemovingIsLawful(os: System, t: Tree, order: seq<Path>)
    requires Lawful(os) && IsRemovalOrder(t, [], order)
    ensures Lawful(Removing(os, t, order))
  {
    var other := Removing(os, t, order);
    forall u: Tree, root: Path ensures IsRemovalOrder(u, root, other.removal(u, root)) {
      assert IsRemovalOrder(u, root, os.removal(u, root));
    }
    forall u: Tree, d: Path ensures Lists(u, d, other.names(u, d)) {
      assert Lists(u, d, os.names(u, d));
    }
  }

  /** Two childless entries first. */
  lemma MarkerAndFileFirst(os: System, t: Tree, marker: Path, file: Path) returns (other: System)
    requires Lawful(os) && marker in t && file in t && Childless(t, marker) && Childless(t, file) && marker != file
    ensures Lawful(other) && |other.removal(t, [])| >= 2 && other.removal(t, [])[..2] == [marker, file]
  {
    var order := os.removal(t, []);
    assert IsRemovalOrder(t, [], order);
    LeafFirst(t, order, file);
    var second := [file] + Without(order, file);
    LeafFirst(t, second, marker);
    var third := [marker] + Without(second, marker);
    assert third[..2] == [marker, file];
    RemovingIsLawful(os, t, third);
    other := Removing(os, t, third);
  }

  lemma LastStepIsTheMarker(env: Env, os: System, settings: Settings, data: Tree, dest: Tree, replace: bool)
    requires Lawful(os) && WellFormed(data) && ManifestFor(env, os, settings, data).Ok?
    ensures var script := BackupScript(env, os, settings, data, dest, replace);
            script != [] && Last(script) == Unlink([INCOMPLETE])
  {
    var publish := PublishOps(env, os, settings, data);
    assert publish != [] && Last(publish) == Unlink([INCOMPLETE]);
  }

  /** A backup, but for the marker. */
  ghost predicate AllButPublished(env: Env, t: Tree, m: Manifest, files: map<Path, Bytes>) {
    && WellFormed(t) && [INCOMPLETE] in t && Childless(t, [INCOMPLETE])
    && HoldsBackup(env, t - {[INCOMPLETE]}, m, files)
  }

  lemma UpToTheLast(t: Tree, script: seq<Op>)
    requires script != [] && Executes(t, script)
    ensures Executes(t, script[..|script| - 1]) && Enabled(After(t, script[..|script| - 1]), Last(script))
    ensures After(t, script) == Apply(After(t, script[..|script| - 1]), Last(script))
  {
    assert script == script[..|script| - 1] + [Last(script)];
    AfterSnoc(t, script[..|script| - 1], Last(script));
  }

  lemma AllButTheLast(env: Env, dest: Tree, script: seq<Op>, m: Manifest, files: map<Path, Bytes>)
    requires WellFormed(dest) && script != [] && Last(script) == Unlink([INCOMPLETE]) && Executes(dest, script)
    requires HoldsBackup(env, After(dest, script), m, files)
    ensures Executes(dest, script[..|script| - 1])
    ensures AllButPublished(env, After(dest, script[..|script| - 1]), m, files)
  {
    UpToTheLast(dest, script);
    AfterWellFormed(dest, script[..|script| - 1]);
  }

  lemma BeforeTheLastStep(env: Env, os: System, settings: Settings, data: Tree, dest: Tree, replace: bool,
                          script: seq<Op>, m: Manifest)
    requires Lawful(os) && Storable(data) && WellFormed(dest) && ManifestFor(env, os, settings, data) == Ok(m)
    requires script == BackupScript(env, os, settings, data, dest, replace) && Executes(dest, script)
    ensures script != [] && Executes(dest, script[..|script| - 1])
    ensures AllButPublished(env, After(dest, script[..|script| - 1]), m, Slashed(data))
  {
    FinishedHolds(env, os, settings, data, dest, replace);
    LastStepIsTheMarker(env, os, settings, data, dest, replace);
    AllButTheLast(env, dest, script, m, Slashed(data));
  }

  lemma ManifestOfAllButPublished(env: Env, t: Tree, m: Manifest, files: map<Path, Bytes>)
    requires Honest(env) && AllButPublished(env, t, m, files) && |env.encode(m)| <= MAXIMUM_MANIFEST_BYTES
    requires m.storageVersion <= SUPPORTED_STORAGE_FORMAT && m.schemaVersion <= SCHEMA_VERSION
    ensures IsFile(t, [MANIFEST]) && ReadManifest(env, t) == Ok(m) && Structured(m)
  {
    NamesDiffer();
    assert env.decode(env.encode(m)) == Some(m);
    assert FileIs(t - {[INCOMPLETE]}, [MANIFEST], env.encode(m));
    assert forall f :: f in m.files ==> EntryFor(env, files, f);
  }

  lemma CatalogIsListed(env: Env, t: Tree, m: Manifest, files: map<Path, Bytes>) returns (f: BackupFile)
    requires AllButPublished(env, t, m, files)
    ensures f in m.files && f.path == REQUIRED[0] && Split(f.path, '/') == CATALOG
    ensures IsFile(t, CATALOG) && Childless(t, CATALOG)
  {
    RequiredSplit();
    assert REQUIRED[0] in ListedPaths(m);
    f :| f in m.files && f.path == REQUIRED[0];
    assert EntryFor(env, files, f);
    var b := t - {[INCOMPLETE]};
    assert CATALOG in ComponentFiles(b);
    FileIsChildless(t, CATALOG);
  }

  lemma FirstTwoGone(env: Env, os: System, settings: Settings, data: Tree, t: Tree, f: BackupFile, p: Path)
    requires Lawful(os) && WellFormed(data) && WellFormed(t)
    requires [INCOMPLETE] in t && IsFile(t, [MANIFEST]) && ReadManifest(env, t).Ok?
    requires var m := ReadManifest(env, t).value;
             m.formatVersion != 1 && Structured(m) && !m.encrypted && f in m.files
    requires p == Split(f.path, '/') && p != [MANIFEST]
    requires |os.removal(t, [])| >= 2 && os.removal(t, [])[..2] == [[INCOMPLETE], p]
    ensures var script := BackupScript(env, os, settings, data, t, true);
            2 <= |script| && Executes(t, script[..2]) && OnlyLooksComplete(env, After(t, script[..2]))
  {
    NamesDiffer();
    AbandonedAttemptCanLookComplete(env, os, settings, data, t, f, 2);
  }

  /**
   * Whatever the deployment: a backup of it stopped just before its last step, and
   * then an attempt to replace it, on a system that happens to remove the marker
   * and the catalog first, stopped there, leave what only looks complete.
   */
  lemma ReplacingCanLookComplete(env: Env, os: System, settings: Settings, data: Tree, t: Tree, m: Manifest,
                                 files: map<Path, Bytes>) returns (other: System)
    requires Honest(env) && Lawful(os) && WellFormed(data) && AllButPublished(env, t, m, files) && !m.encrypted
    requires |env.encode(m)| <= MAXIMUM_MANIFEST_BYTES
    requires m.storageVersion <= SUPPORTED_STORAGE_FORMAT && m.schemaVersion <= SCHEMA_VERSION
    ensures Lawful(other)
    ensures var script := BackupScript(env, other, settings, data, t, true);
            2 <= |script| && Executes(t, script[..2]) && OnlyLooksComplete(env, After(t, script[..2]))
  {
    ManifestOfAllButPublished(env, t, m, files);
    var f := CatalogIsListed(env, t, m, files);
    other := MarkerAndFileFirst(os, t, [INCOMPLETE], CATALOG);
    FirstTwoGone(env, other, settings, data, t, f, CATALOG);
  }

  /** A backup that stops just before its last step. */
  lemma BackupAbandoned(env: Env, os: System, settings: Settings, data: Tree, script: seq<Op>, dest: string)
    returns (ws: seq<World>, events: seq<Event>)
    requires Lawful(os) && WellFormed(data) && BackupAdmitted(data)
    requires script == BackupScript(env, os, settings, data, map[], false)
    requires script != [] && Executes(map[], script[..|script| - 1])
    ensures IsRun(env, ws, events) && ws[0].data == data && ws[0].dests == map[]
    ensures Last(ws).data == data && Last(ws).holder.Nobody?
    ensures Last(ws).dests == map[dest := After(map[], script[..|script| - 1])]
  {
    ws, events := Begin(env, data);
    ws, events := BackupUpTo(env, ws, events, os, settings, false, dest, script, |script| - 1);
    ws, events := Extend(env, ws, events, Release);
  }

  /** And then an attempt to replace it, stopped too. */
  lemma ReplacingAbandoned(env: Env, os: System, other: System, settings: Settings, data: Tree, script: seq<Op>,
                           t: Tree, second: seq<Op>, dest: string) returns (ws: seq<World>, events: seq<Event>)
    requires Lawful(os) && Lawful(other) && WellFormed(data) && BackupAdmitted(data)
    requires script == BackupScript(env, os, settings, data, map[], false)
    requires script != [] && Executes(map[], script[..|script| - 1]) && t == After(map[], script[..|script| - 1])
    requires second == BackupScript(env, other, settings, data, t, true) && 2 <= |second| && Executes(t, second[..2])
    ensures IsRun(env, ws, events) && ws[0].data == data && ws[0].dests == map[] && dest in Last(ws).dests
    ensures Last(ws).dests[dest] == After(t, second[..2])
  {
    ws, events := BackupAbandoned(env, os, settings, data, script, dest);
    ws, events := ReplacedUpTo(env, ws, events, other, settings, t, second, dest);
  }

  lemma ReplacedUpTo(env: Env, ws: seq<World>, events: seq<Event>, os: System, settings: Settings, t: Tree,
                     second: seq<Op>, dest: string) returns (ws': seq<World>, events': seq<Event>)
    requires IsRun(env, ws, events) && Lawful(os) && WellFormed(Last(ws).data) && BackupAdmitted(Last(ws).data)
    requires Last(ws).holder.Nobody? && Last(ws).dests == map[dest := t]
    requires second == BackupScript(env, os, settings, Last(ws).data, t, true)
    requires 2 <= |second| && Executes(t, second[..2])
    ensures IsRun(env, ws', events') && ws'[0] == ws[0] && dest in Last(ws').dests
    ensures Last(ws').dests[dest] == After(t, second[..2])
  {
    assert DestOf(Last(ws), dest) == t;
    ws', events' := BackupUpTo(env, ws, events, os, settings, true, dest, second, 2);
  }

  lemma FinishesIntoNothing(env: Env, os: System, settings: Settings, data: Tree, none: Tree, m: Manifest)
    requires Lawful(os) && Storable(data) && SpaceSuffices(os, settings, data)
    requires WellFormed(none) && Accepted(none, false) && ManifestFor(env, os, settings, data) == Ok(m)
    ensures Executes(none, BackupScript(env, os, settings, data, none, false))
  {
    BackupGoesThrough(env, os, settings, data, none, false);
  }

  lemma FirstAttempt(env: Env, os: System, settings: Settings, data: Tree, m: Manifest)
    returns (script: seq<Op>, t: Tree)
    requires Lawful(os) && Storable(data) && SpaceSuffices(os, settings, data)
    requires ManifestFor(env, os, settings, data) == Ok(m)
    ensures script == BackupScript(env, os, settings, data, map[], false)
    ensures script != [] && Executes(map[], script[..|script| - 1]) && t == After(map[], script[..|script| - 1])
    ensures AllButPublished(env, t, m, Slashed(data))
  {
    var none: Tree := map[];
    assert WellFormed(none) && Accepted(none, false);
    FinishesIntoNothing(env, os, settings, data, none, m);
    script := BackupScript(env, os, settings, data, none, false);
    BeforeTheLastStep(env, os, settings, data, none, false, script, m);
    t := After(none, script[..|script| - 1]);
  }

  /**
   * There is a run, for every deployment that can be backed up unencrypted, in
   * which its only destination comes to look complete, though it passes no more
   * than the manifest level.
   */
  lemma RunLeavesComplete(env: Env, os: System, settings: Settings, data: Tree, m: Manifest, dest: string)
    returns (ws: seq<World>, events: seq<Event>)
    requires Honest(env) && Lawful(os) && Storable(data) && BackupAdmitted(data) && SpaceSuffices(os, settings, data)
    requires ManifestFor(env, os, settings, data) == Ok(m) && Readable(env, settings, data, m) && !m.encrypted
    ensures IsRun(env, ws, events) && ws[0].data == data && ws[0].dests == map[]
    ensures dest in Last(ws).dests && OnlyLooksComplete(env, Last(ws).dests[dest])
  {
    var script, t := FirstAttempt(env, os, settings, data, m);
    var other := ReplacingCanLookComplete(env, os, settings, data, t, m, Slashed(data));
    ws, events := ReplacingAbandoned(env, os, other, settings, data, script, t,
                                     BackupScript(env, other, settings, data, t, true), dest);
  }
}
