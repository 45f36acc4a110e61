/** What a backup says about itself, in both on-disk formats. */
module Manifests {
  import opened Wrappers
  import opened Text
  import opened Filesystem
  import opened Layout
  import opened Copying
  import opened Payloads

  const FORMAT_VERSION: nat := 2
  const SUPPORTED_STORAGE_FORMAT: nat := 1
  const SCHEMA_VERSION: nat := 6
  const MAXIMUM_MANIFEST_BYTES: nat := 64 * 1024 * 1024

  datatype BackupFile = BackupFile(path: string, size: nat, sha256: string)

  datatype BackupComponent = BackupComponent(name: string, required: bool, fileCount: nat, bytes: nat)

  datatype Manifest = Manifest(
    formatVersion: nat,
    schemaVersion: nat,
    storageVersion: nat,
    created: nat,
    encrypted: bool,
    sealingKey: Option<string>,
    components: seq<BackupComponent>,
    files: seq<BackupFile>,
    totalBytes: nat)

  /** The version 1, metadata-only manifest. */
  datatype LegacyFile = LegacyFile(name: string, size: nat, sha256: string)

  datatype LegacyManifest = LegacyManifest(
    formatVersion: nat, schemaVersion: nat, created: nat, files: seq<LegacyFile>)

  /**
   * Everything that reads or writes an encoding, kept abstract: the digest, the
   * two manifest parsers, the records inside `system/`, the catalog and key
   * derivation.
   */
  datatype Env = Env(
    digest: Bytes -> string,
    encode: Manifest -> Bytes,
    decode: Bytes -> Option<Manifest>,
    decodeLegacy: Bytes -> Option<LegacyManifest>,
    storageFormat: Bytes -> Option<nat>,
    schemaVersion: Bytes -> Option<nat>,
    keyRecord: Bytes -> Option<string>,
    keyReference: Bytes -> Option<string>,
    references: Bytes -> Option<seq<ObjectId>>)

  /** An encoded manifest reads back as itself, and a truncated one does not read at all. */
  ghost predicate Honest(env: Env) {
    && (forall m: Manifest {:trigger env.encode(m)} :: env.decode(env.encode(m)) == Some(m))
    && (forall m: Manifest, k: nat {:trigger env.encode(m)[..k]} :: k < |env.encode(m)| ==>
          env.decode(env.encode(m)[..k]).None? && env.decodeLegacy(env.encode(m)[..k]).None?)
  }

  // -------------------------------------------------------------- inventory

  /** The manifest's entries, order and repetition aside. */
  function EntriesOf(m: Manifest): set<(string, nat, string)> {
    set f | f in m.files :: (f.path, f.size, f.sha256)
  }

  /** The entries a manifest describing exactly these files would have. */
  function InventoryOf(env: Env, files: map<Path, Bytes>): set<(string, nat, string)>
    requires [] !in files
  {
    set p | p in files :: (Join(p, '/'), Size(files[p]), env.digest(files[p]))
  }

  ghost predicate Named(files: map<Path, Bytes>) {
    forall p :: p in files ==> p != [] && ValidPath(p)
  }

  /** Two contents met in these files share a digest only by being the same. */
  ghost predicate NoCollision(env: Env, left: map<Path, Bytes>, right: map<Path, Bytes>) {
    forall p, q :: p in left && q in right && env.digest(left[p]) == env.digest(right[q]) ==> left[p] == right[q]
  }

  lemma InventoryWithin(env: Env, left: map<Path, Bytes>, right: map<Path, Bytes>, p: Path)
    requires Named(left) && Named(right) && NoCollision(env, left, right)
    requires InventoryOf(env, left) <= InventoryOf(env, right) && p in left
    ensures p in right && right[p] == left[p]
  {
    var e := (Join(p, '/'), Size(left[p]), env.digest(left[p]));
    assert e in InventoryOf(env, left);
    assert e in InventoryOf(env, right);
    var q :| q in right && e == (Join(q, '/'), Size(right[q]), env.digest(right[q]));
    assert ValidPath(p) && ValidPath(q);
    JoinInjective(p, q, '/');
  }

  /** Short of a digest collision, the inventory pins the files down. */
  lemma InventoryDetermines(env: Env, left: map<Path, Bytes>, right: map<Path, Bytes>)
    requires Named(left) && Named(right) && NoCollision(env, left, right)
    requires InventoryOf(env, left) == InventoryOf(env, right)
    ensures left == right
  {
    forall p | p in left ensures p in right && right[p] == left[p] {
      InventoryWithin(env, left, right, p);
    }
    forall p | p in right ensures p in left {
      InventoryWithin(env, right, left, p);
    }
  }

  // ----------------------------------------------------------------- legacy

  function LegacyAsModern(legacy: LegacyManifest): Result<Manifest, Failure> {
    if legacy.formatVersion != 1 then Err(InvalidManifest)
    else
      var files := seq(|legacy.files|, i requires 0 <= i < |legacy.files| =>
        BackupFile("metadata/" + legacy.files[i].name, legacy.files[i].size, legacy.files[i].sha256));
      Ok(Manifest(1, legacy.schemaVersion, 1, legacy.created, false, None,
                  [BackupComponent(METADATA, true, |files|, TotalBytes(files))], files, TotalBytes(files)))
  }

  ghost predicate DistinctNames(files: seq<LegacyFile>) {
    forall i, j :: 0 <= i < j < |files| ==> files[i].name != files[j].name
  }

  ghost predicate ListsName(files: seq<LegacyFile>, name: string) {
    exists f :: f in files && f.name == name
  }

  function SumSizes(files: seq<BackupFile>): nat {
    if files == [] then 0 else files[0].size + SumSizes(files[1..])
  }

  lemma {:induction false} SumConcat(a: seq<BackupFile>, b: seq<BackupFile>)
    ensures SumSizes(a + b) == SumSizes(a) + SumSizes(b)
    decreases |a|
  {
    if a == [] {
      assert a + b == b;
    } else {
      assert (a + b)[1..] == a[1..] + b;
      SumConcat(a[1..], b);
    }
  }

  /** `iter().sum()` on 64-bit integers in a release build. */
  function TotalBytes(files: seq<BackupFile>): nat {
    SumSizes(files) % (U64_MAX + 1)
  }

  /** Where an entry's bytes live inside the backup directory. */
  function SourcePath(m: Manifest, f: BackupFile): Path {
    if m.formatVersion == 1 && StartsWith(f.path, "metadata/") then Split(f.path[|"metadata/"|..], '/')
    else Split(f.path, '/')
  }

  /** Opening a version 1 entry undoes the renaming, whatever the file was called. */
  lemma LegacySourceIsTheOriginal(legacy: LegacyManifest, i: nat)
    requires LegacyAsModern(legacy).Ok? && i < |legacy.files|
    ensures var m := LegacyAsModern(legacy).value;
            && SourcePath(m, m.files[i]) == Split(legacy.files[i].name, '/')
            && Split(m.files[i].path, '/') == [METADATA] + Split(legacy.files[i].name, '/')
  {
    var name := legacy.files[i].name;
    assert ("metadata/" + name)[|"metadata/"|..] == name;
    assert "metadata/" + name == METADATA + ['/'] + name;
    SplitPart(METADATA, name, '/');
  }

  const REQUIRED: seq<string> :=
    [METADATA + "/" + "catalog.redb", METADATA + "/" + "credentials.redb", SYSTEM + "/" + "storage-format.json"]

  const CREDENTIALS: Path := [METADATA, "credentials.redb"]

  lemma RequiredNames()
    ensures '/' !in "catalog.redb" && '/' !in "credentials.redb" && '/' !in "storage-format.json"
    ensures '\\' !in "catalog.redb" && '\\' !in "credentials.redb" && '\\' !in "storage-format.json"
  {
  }

  lemma TwoParts(first: string, second: string)
    requires '/' !in first && '/' !in second
    ensures Split(first + "/" + second, '/') == [first, second]
  {
    SplitPart(first, second, '/');
    SplitWhole(second, '/');
  }

  /** Where the required files are. */
  lemma RequiredSplit()
    ensures Split(REQUIRED[0], '/') == CATALOG && Split(REQUIRED[1], '/') == CREDENTIALS
    ensures Split(REQUIRED[2], '/') == STORAGE_FORMAT
    ensures PlainPath(CATALOG) && PlainPath(CREDENTIALS) && PlainPath(STORAGE_FORMAT)
  {
    ComponentNamesArePlain();
    RequiredNames();
    TwoParts(METADATA, "catalog.redb");
    TwoParts(METADATA, "credentials.redb");
    TwoParts(SYSTEM, "storage-format.json");
  }

  function RequiredFor(m: Manifest): seq<string> {
    if m.formatVersion == 1 then REQUIRED[..2] else REQUIRED
  }

  // ---------------------------------------------------------------- reading

  function ManifestPath(t: Tree): Path {
    if IsFile(t, [MANIFEST]) then [MANIFEST] else [LEGACY_MANIFEST]
  }

  function ReadManifest(env: Env, t: Tree): Result<Manifest, Failure> {
    var p := ManifestPath(t);
    if p !in t then Err(NoManifest)
    else if t[p].Dir? then Err(Io)
    else if |t[p].data| > MAXIMUM_MANIFEST_BYTES then Err(InvalidManifest)
    else
      match env.decode(t[p].data)
      case Some(m) => Ok(m)
      case None =>
        match env.decodeLegacy(t[p].data)
        case Some(legacy) => LegacyAsModern(legacy)
        case None => Err(InvalidManifest)
  }

  // ---------------------------------------------------------------- sorting

  /** Rust's ordering of strings. */
  predicate Precedes(a: string, b: string) {
    a == "" || (b != "" && (a[0] < b[0] || (a[0] == b[0] && Precedes(a[1..], b[1..]))))
  }

  function Insert(f: BackupFile, sorted: seq<BackupFile>): seq<BackupFile> {
    if sorted == [] || Precedes(f.path, sorted[0].path) then [f] + sorted
    else [sorted[0]] + Insert(f, sorted[1..])
  }

  /** `files.sort_by(path)`. */
  function Sorted(files: seq<BackupFile>): seq<BackupFile> {
    if files == [] then [] else Insert(files[0], Sorted(files[1..]))
  }

  lemma {:induction false} InsertKeeps(f: BackupFile, sorted: seq<BackupFile>)
    ensures multiset(Insert(f, sorted)) == multiset([f]) + multiset(sorted)
    ensures SumSizes(Insert(f, sorted)) == f.size + SumSizes(sorted)
  {
    if sorted == [] || Precedes(f.path, sorted[0].path) {
      assert ([f] + sorted)[1..] == sorted;
    } else {
      InsertKeeps(f, sorted[1..]);
      var rest := Insert(f, sorted[1..]);
      assert ([sorted[0]] + rest)[1..] == rest;
      assert sorted == [sorted[0]] + sorted[1..];
    }
  }

  /** Sorting only rearranges. */
  lemma {:induction false} SortedKeeps(files: seq<BackupFile>)
    ensures multiset(Sorted(files)) == multiset(files)
    ensures |Sorted(files)| == |files| && SumSizes(Sorted(files)) == SumSizes(files)
    ensures forall f :: f in Sorted(files) <==> f in files
  {
    if files != [] {
      SortedKeeps(files[1..]);
      InsertKeeps(files[0], Sorted(files[1..]));
      assert files == [files[0]] + files[1..];
    }
    SameMembers(Sorted(files), files);
  }

  lemma SameMembers<T>(a: seq<T>, b: seq<T>)
    requires multiset(a) == multiset(b)
    ensures |a| == |b|
    ensures forall x :: x in a <==> x in b
  {
    assert |a| == |multiset(a)| && |b| == |multiset(b)|;
    forall x ensures x in a <==> x in b {
      assert x in a <==> multiset(a)[x] > 0;
      assert x in b <==> multiset(b)[x] > 0;
    }
  }

  /** That ordering, told at the first difference: a prefix comes first, and so does the smaller character. */
  ghost predicate Before(a: string, b: string) {
    a <= b || exists i :: 0 <= i < |a| && i < |b| && a[..i] == b[..i] && a[i] < b[i]
  }

  lemma BeforeOnward(a: string, b: string)
    requires a != "" && b != "" && a[0] == b[0]
    ensures Before(a, b) ==> Before(a[1..], b[1..])
  {
    if a <= b {
      assert a[1..] <= b[1..];
    } else if i :| 0 <= i < |a| && i < |b| && a[..i] == b[..i] && a[i] < b[i] {
      assert a[1..][..i - 1] == a[..i][1..] && b[1..][..i - 1] == b[..i][1..];
      assert a[1..][i - 1] < b[1..][i - 1];
    }
  }

  lemma BeforeBack(a: string, b: string)
    requires a != "" && b != "" && a[0] == b[0] && Before(a[1..], b[1..])
    ensures Before(a, b)
  {
    assert a == [a[0]] + a[1..] && b == [b[0]] + b[1..];
    if i :| 0 <= i < |a[1..]| && i < |b[1..]| && a[1..][..i] == b[1..][..i] && a[1..][i] < b[1..][i] {
      assert a[..i + 1] == [a[0]] + a[1..][..i] && b[..i + 1] == [b[0]] + b[1..][..i];
      assert a[i + 1] < b[i + 1];
    }
  }

  lemma BeforeAtOnce(a: string, b: string)
    requires a != "" && b != "" && a[0] != b[0]
    ensures Before(a, b) <==> a[0] < b[0]
  {
    if a[0] < b[0] {
      assert a[..0] == b[..0];
    }
    if i :| 0 <= i < |a| && i < |b| && a[..i] == b[..i] && a[i] < b[i] {
      assert i > 0 ==> a[..i][0] == b[..i][0];
    }
  }

  lemma {:induction false} PrecedesExactly(a: string, b: string)
    ensures Precedes(a, b) <==> Before(a, b)
  {
    if a != "" && b != "" {
      if a[0] == b[0] {
        PrecedesExactly(a[1..], b[1..]);
        BeforeOnward(a, b);
        if Before(a[1..], b[1..]) {
          BeforeBack(a, b);
        }
      } else {
        BeforeAtOnce(a, b);
      }
    }
  }

  lemma {:induction false} PrecedesTotal(a: string, b: string)
    ensures Precedes(a, b) || Precedes(b, a)
  {
    if a != "" && b != "" {
      PrecedesTotal(a[1..], b[1..]);
    }
  }

  lemma {:induction false} PrecedesOnward(a: string, b: string, c: string)
    requires Precedes(a, b) && Precedes(b, c)
    ensures Precedes(a, c)
  {
    if a != "" && b != "" && c != "" && a[0] == b[0] == c[0] {
      PrecedesOnward(a[1..], b[1..], c[1..]);
    }
  }

  /** In the order of their paths. */
  ghost predicate InOrder(files: seq<BackupFile>) {
    forall i, j :: 0 <= i < j < |files| ==> Precedes(files[i].path, files[j].path)
  }

  lemma {:induction false} InsertInOrder(f: BackupFile, sorted: seq<BackupFile>)
    requires InOrder(sorted)
    ensures InOrder(Insert(f, sorted))
  {
    if sorted == [] {
    } else if Precedes(f.path, sorted[0].path) {
      forall j | 0 <= j < |sorted| ensures Precedes(f.path, sorted[j].path) {
        if j > 0 {
          PrecedesOnward(f.path, sorted[0].path, sorted[j].path);
        }
      }
    } else {
      PrecedesTotal(f.path, sorted[0].path);
      var rest := Insert(f, sorted[1..]);
      InsertInOrder(f, sorted[1..]);
      InsertKeeps(f, sorted[1..]);
      forall j | 0 <= j < |rest| ensures Precedes(sorted[0].path, rest[j].path) {
        assert rest[j] in multiset(rest);
        if rest[j] != f {
          assert rest[j] in sorted[1..];
          var k :| 1 <= k < |sorted| && sorted[k] == rest[j];
        }
      }
    }
  }

  /** Sorting does sort. */
  lemma {:induction false} SortedInOrder(files: seq<BackupFile>)
    ensures InOrder(Sorted(files))
  {
    if files != [] {
      SortedInOrder(files[1..]);
      InsertInOrder(files[0], Sorted(files[1..]));
    }
  }
}
