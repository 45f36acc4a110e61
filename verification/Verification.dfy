/** Deciding whether a backup can be trusted, at three levels of thoroughness. */
module Verification {
  import opened Wrappers
  import opened Text
  import opened Filesystem
  import opened Walking
  import opened Layout
  import opened Copying
  import opened Payloads
  import opened Manifests

  datatype Level = ManifestOnly | Checksums | Full

  datatype Problem =
    | MarkedIncomplete
    | UnreadableManifest(error: Failure)
    | FormatTooNew
    | StorageTooNew
    | SchemaTooNew
    | NotListed(path: string)
    | UnsafeListed(path: string)
    | WrongSize(path: string)
    | WrongChecksum(path: string)
    | CannotRead(path: string)
    | Stray(path: string)
    | PayloadsMissing(count: nat)
    | CrossCheckFailed
    | WrongKey
    | KeyRecordUnreadable
    | NoKeySupplied

  datatype Report = Report(
    level: Level,
    usable: bool,
    filesChecksummed: nat,
    bytesRead: nat,
    cross: Option<Cross>,
    keyMatches: Option<bool>,
    problems: seq<Problem>,
    manifest: Option<Manifest>)

  // ---------------------------------------------------------- what is asked

  function ListedPaths(m: Manifest): set<string> {
    set f | f in m.files :: f.path
  }

  /** Versions this release reads, required files listed, no unsafe path. */
  predicate Structured(m: Manifest) {
    && m.formatVersion <= FORMAT_VERSION
    && m.storageVersion <= SUPPORTED_STORAGE_FORMAT
    && m.schemaVersion <= SCHEMA_VERSION
    && (forall path :: path in RequiredFor(m) ==> path in ListedPaths(m))
    && (forall f :: f in m.files ==> SafeRelativePath(f.path))
  }

  predicate Intact(env: Env, t: Tree, m: Manifest, f: BackupFile) {
    var p := SourcePath(m, f);
    IsFile(t, p) && Size(t[p].data) == f.size && env.digest(t[p].data) == f.sha256
  }

  predicate StrayFree(t: Tree, component: string, listed: set<string>) {
    forall p :: p in t && t[p].File? && [component] <= p ==> Logical(p) in listed
  }

  ghost predicate Checksummed(env: Env, t: Tree, m: Manifest) {
    && (forall f :: f in m.files ==> Intact(env, t, m, f))
    && (forall c :: c in COMPONENTS ==> !IsFile(t, [c]) && StrayFree(t, c, ListedPaths(m)))
  }

  ghost predicate PayloadsPresent(env: Env, t: Tree) {
    && IsFile(t, CATALOG) && env.references(t[CATALOG].data).Some?
    && !IsFile(t, [OBJECTS])
    && forall id :: id in References(env.references(t[CATALOG].data).value) ==> Present(t, id)
  }

  /** Whether the key opens the payloads; nothing when that could not be decided. */
  function KeyMatches(env: Env, t: Tree, key: Bytes): Option<bool> {
    if !IsFile(t, ENCRYPTION_RECORD) then None
    else
      var recorded, expected := env.keyRecord(t[ENCRYPTION_RECORD].data), env.keyReference(key);
      if recorded.None? || expected.None? then None else Some(recorded.value == expected.value)
  }

  /** The reference the directory records for the key its payloads were written under. */
  function RecordedKey(env: Env, t: Tree): Option<string> {
    if IsFile(t, ENCRYPTION_RECORD) then env.keyRecord(t[ENCRYPTION_RECORD].data) else None
  }

  /** Encrypted payloads ask for a key with the very reference that is recorded. */
  predicate KeyConfirmed(env: Env, t: Tree, m: Manifest, key: Option<Bytes>) {
    m.encrypted ==> key.Some? && RecordedKey(env, t).Some? && RecordedKey(env, t) == env.keyReference(key.value)
  }

  /** The verdict, stated on the directory rather than on the program that checks it. */
  ghost predicate Usable(env: Env, t: Tree, level: Level, key: Option<Bytes>) {
    && [INCOMPLETE] !in t
    && ReadManifest(env, t).Ok?
    && var m := ReadManifest(env, t).value;
      && Structured(m)
      && (level != ManifestOnly ==> Checksummed(env, t, m))
      && (level == Full ==> PayloadsPresent(env, t))
      && KeyConfirmed(env, t, m, key)
  }

  // ------------------------------------------------------------- the checks

  /** What is wrong with a manifest by itself. */
  ghost predicate BlamesManifest(m: Manifest, q: Problem) {
    match q
    case FormatTooNew => m.formatVersion > 2
    case StorageTooNew => m.storageVersion > 1
    case SchemaTooNew => m.schemaVersion > 6
    case NotListed(path) => path !in ListedPaths(m) && IsRequired(m.formatVersion, path)
    case UnsafeListed(path) => path in ListedPaths(m) && !SafeRelativePath(path)
    case _ => false
  }

  /** The two databases, and for all but version 1 the storage format record. */
  predicate IsRequired(version: nat, path: string) {
    || path == "metadata/catalog.redb" || path == "metadata/credentials.redb"
    || (path == "system/storage-format.json" && version != 1)
  }

  lemma RequiredExactly(m: Manifest, path: string)
    ensures path in RequiredFor(m) <==> IsRequired(m.formatVersion, path)
  {
    CatalogText();
    CredentialsText();
    StorageFormatText();
  }

  lemma CatalogText()
    ensures REQUIRED[0] == "metadata/catalog.redb"
  {
  }

  lemma CredentialsText()
    ensures REQUIRED[1] == "metadata/credentials.redb"
  {
  }

  lemma StorageFormatText()
    ensures REQUIRED[2] == "system/storage-format.json"
  {
  }

  method CheckStructure(m: Manifest) returns (problems: seq<Problem>)
    ensures problems == [] <==> Structured(m)
    ensures forall q :: q in problems <==> BlamesManifest(m, q)
  {
    problems := [];
    if m.formatVersion > FORMAT_VERSION { problems := problems + [FormatTooNew]; }
    if m.storageVersion > SUPPORTED_STORAGE_FORMAT { problems := problems + [StorageTooNew]; }
    if m.schemaVersion > SCHEMA_VERSION { problems := problems + [SchemaTooNew]; }
    var required := CheckRequired(RequiredFor(m), ListedPaths(m));
    var unsafe := CheckPaths(m.files);
    ghost var versions := problems;
    problems := problems + required + unsafe;
    forall q ensures q in problems <==> BlamesManifest(m, q) {
      if q.NotListed? {
        RequiredExactly(m, q.path);
      }
      assert q in problems <==> q in versions || q in required || q in unsafe;
      assert q.UnsafeListed? ==> (q.path in ListedPaths(m) <==> exists f :: f in m.files && f.path == q.path);
    }
  }

  method CheckRequired(required: seq<string>, listed: set<string>) returns (problems: seq<Problem>)
    ensures problems == [] <==> forall path :: path in required ==> path in listed
    ensures forall q :: q in problems <==> q.NotListed? && q.path in required && q.path !in listed
  {
    problems := [];
    for i := 0 to |required|
      invariant problems == [] <==> forall k :: 0 <= k < i ==> required[k] in listed
      invariant forall q :: q in problems <==> q.NotListed? && q.path in required[..i] && q.path !in listed
    {
      assert required[..i + 1] == required[..i] + [required[i]];
      if required[i] !in listed { problems := problems + [NotListed(required[i])]; }
    }
    assert required[..|required|] == required;
  }

  method CheckPaths(files: seq<BackupFile>) returns (problems: seq<Problem>)
    ensures problems == [] <==> forall f :: f in files ==> SafeRelativePath(f.path)
    ensures forall q :: q in problems ==>
              q.UnsafeListed? && !SafeRelativePath(q.path) && exists f :: f in files && f.path == q.path
    ensures forall f :: f in files && !SafeRelativePath(f.path) ==> UnsafeListed(f.path) in problems
  {
    problems := [];
    for i := 0 to |files|
      invariant problems == [] <==> forall k :: 0 <= k < i ==> SafeRelativePath(files[k].path)
      invariant forall q :: q in problems ==>
                  q.UnsafeListed? && !SafeRelativePath(q.path) && exists f :: f in files && f.path == q.path
      invariant forall k :: 0 <= k < i && !SafeRelativePath(files[k].path) ==> UnsafeListed(files[k].path) in problems
    {
      var safe := CheckRelativePath(files[i].path);
      if !safe { problems := problems + [UnsafeListed(files[i].path)]; }
    }
  }

  /** Reads a file to its end, hashing as it goes. */
  method ChecksumFile(env: Env, os: System, t: Tree, p: Path) returns (r: Option<(nat, string)>)
    ensures r.Some? <==> IsFile(t, p)
    ensures r.Some? ==> r.value == (Size(t[p].data), env.digest(t[p].data))
  {
    if !IsFile(t, p) {
      return None;
    }
    var data := t[p].data;
    var hashed, size, at := [], 0, 0;
    while at < |data|
      invariant at <= |data| && hashed == data[..at] && size == Size(data[..at])
    {
      var n := Chunk(os, data, at);
      hashed := hashed + data[at..at + n];
      size := SaturatingAdd(size, n);
      at := at + n;
    }
    assert data[..at] == data;
    r := Some((size, env.digest(hashed)));
  }

  /** What is wrong with one entry's file, if anything. */
  function Complaint(env: Env, t: Tree, m: Manifest, f: BackupFile): (q: Option<Problem>)
    ensures q.None? <==> Intact(env, t, m, f)
  {
    var p := SourcePath(m, f);
    if !IsFile(t, p) then Some(CannotRead(f.path))
    else if Size(t[p].data) != f.size then Some(WrongSize(f.path))
    else if env.digest(t[p].data) != f.sha256 then Some(WrongChecksum(f.path))
    else None
  }

  /** One entry's file, read and compared. */
  method CheckFile(env: Env, os: System, t: Tree, m: Manifest, f: BackupFile)
    returns (q: Option<Problem>, size: Option<nat>)
    ensures q == Complaint(env, t, m, f)
    ensures size.Some? <==> IsFile(t, SourcePath(m, f))
    ensures size.Some? ==> size == Some(Size(t[SourcePath(m, f)].data))
    ensures q.None? ==> size == Some(f.size)
  {
    var read := ChecksumFile(env, os, t, SourcePath(m, f));
    if read.None? {
      return Some(CannotRead(f.path)), None;
    }
    size := Some(read.value.0);
    if read.value.0 != f.size {
      q := Some(WrongSize(f.path));
    } else if read.value.1 != f.sha256 {
      q := Some(WrongChecksum(f.path));
    } else {
      q := None;
    }
  }

  /** The complaints about some entries, in their order. */
  function Complaints(env: Env, t: Tree, m: Manifest, files: seq<BackupFile>): seq<Problem>
    decreases |files|
  {
    if files == [] then []
    else
      var last := Complaint(env, t, m, files[|files| - 1]);
      Complaints(env, t, m, files[..|files| - 1]) + if last.Some? then [last.value] else []
  }

  lemma {:induction false} NoComplaints(env: Env, t: Tree, m: Manifest, files: seq<BackupFile>)
    ensures Complaints(env, t, m, files) == [] <==> forall f :: f in files ==> Intact(env, t, m, f)
    decreases |files|
  {
    if files != [] {
      var before, last := files[..|files| - 1], files[|files| - 1];
      NoComplaints(env, t, m, before);
      assert files == before + [last];
      assert forall f :: f in files <==> f in before || f == last;
    }
  }

  /** What is wrong with an entry's file: it is not there, not that long, or not that content. */
  ghost predicate BlamesFile(env: Env, t: Tree, m: Manifest, f: BackupFile, q: Problem) {
    var p := SourcePath(m, f);
    match q
    case CannotRead(path) => path == f.path && !IsFile(t, p)
    case WrongSize(path) => path == f.path && IsFile(t, p) && Size(t[p].data) != f.size
    case WrongChecksum(path) =>
      path == f.path && IsFile(t, p) && Size(t[p].data) == f.size && env.digest(t[p].data) != f.sha256
    case _ => false
  }

  lemma {:induction false} ComplaintsNamed(env: Env, t: Tree, m: Manifest, files: seq<BackupFile>, q: Problem)
    ensures q in Complaints(env, t, m, files) <==> exists f :: f in files && BlamesFile(env, t, m, f, q)
    decreases |files|
  {
    if files != [] {
      var before, last := files[..|files| - 1], files[|files| - 1];
      ComplaintsNamed(env, t, m, before, q);
      assert files == before + [last];
      assert Complaint(env, t, m, last) == Some(q) <==> BlamesFile(env, t, m, last, q);
      assert forall f :: f in files <==> f in before || f == last;
    }
  }

  /** Every entry's file: what is wrong with any of them, and how much was read if nothing is. */
  method CheckFiles(env: Env, os: System, t: Tree, m: Manifest)
    returns (problems: seq<Problem>, checksummed: nat, bytesRead: nat)
    ensures problems == Complaints(env, t, m, m.files)
    ensures problems == [] <==> forall f :: f in m.files ==> Intact(env, t, m, f)
    ensures problems == [] ==> checksummed == Saturate(|m.files|) && bytesRead == Saturate(SumSizes(m.files))
    ensures checksummed == Saturate(|Lengths(t, m, m.files)|) && bytesRead == Saturate(Sum(Lengths(t, m, m.files)))
  {
    problems, checksummed, bytesRead := [], 0, 0;
    for i := 0 to |m.files|
      invariant problems == Complaints(env, t, m, m.files[..i])
      invariant checksummed == Saturate(|Lengths(t, m, m.files[..i])|)
      invariant bytesRead == Saturate(Sum(Lengths(t, m, m.files[..i])))
    {
      var q, size := CheckFile(env, os, t, m, m.files[i]);
      OneMoreFile(env, t, m, i);
      ghost var before := Lengths(t, m, m.files[..i]);
      assert Lengths(t, m, m.files[..i + 1]) == if size.Some? then before + [size.value] else before;
      if size.Some? {
        OneMoreLength(before, size.value);
        checksummed := SaturatingAdd(checksummed, 1);
        bytesRead := SaturatingAdd(bytesRead, size.value);
      }
      if q.Some? {
        problems := problems + [q.value];
      }
    }
    assert m.files[..|m.files|] == m.files;
    NoComplaints(env, t, m, m.files);
    if problems == [] {
      LengthsAreSizes(env, t, m, m.files);
    }
  }

  /** How long the files are that can be read, entry by entry. */
  function Lengths(t: Tree, m: Manifest, files: seq<BackupFile>): seq<nat>
    decreases |files|
  {
    if files == [] then []
    else
      var p := SourcePath(m, files[|files| - 1]);
      Lengths(t, m, files[..|files| - 1]) + if IsFile(t, p) then [Size(t[p].data)] else []
  }

  function Sum(lengths: seq<nat>): nat {
    if lengths == [] then 0 else Sum(lengths[..|lengths| - 1]) + lengths[|lengths| - 1]
  }

  lemma {:induction false} LengthsAreSizes(env: Env, t: Tree, m: Manifest, files: seq<BackupFile>)
    requires forall f :: f in files ==> Intact(env, t, m, f)
    ensures |Lengths(t, m, files)| == |files| && Sum(Lengths(t, m, files)) == SumSizes(files)
    decreases |files|
  {
    if files != [] {
      var before, last := files[..|files| - 1], files[|files| - 1];
      assert files == before + [last] && last in files && forall f :: f in before ==> f in files;
      LengthsAreSizes(env, t, m, before);
      SumConcat(before, [last]);
      assert [last][1..] == [];
      assert (Lengths(t, m, before) + [last.size])[..|before|] == Lengths(t, m, before);
    }
  }

  lemma OneMoreFile(env: Env, t: Tree, m: Manifest, i: nat)
    requires i < |m.files|
    ensures Complaints(env, t, m, m.files[..i + 1]) ==
            var q := Complaint(env, t, m, m.files[i]);
            Complaints(env, t, m, m.files[..i]) + if q.Some? then [q.value] else []
    ensures var p, before := SourcePath(m, m.files[i]), Lengths(t, m, m.files[..i]);
            Lengths(t, m, m.files[..i + 1]) == before + if IsFile(t, p) then [Size(t[p].data)] else []
  {
    assert m.files[..i + 1] == m.files[..i] + [m.files[i]] && m.files[..i + 1][..i] == m.files[..i];
  }

  lemma OneMoreLength(lengths: seq<nat>, n: nat)
    ensures SaturatingAdd(Saturate(|lengths|), 1) == Saturate(|lengths + [n]|)
    ensures SaturatingAdd(Saturate(Sum(lengths)), n) == Saturate(Sum(lengths + [n]))
  {
    assert (lengths + [n])[..|lengths|] == lengths;
  }

  /**
   * Files nobody listed, at most a hundred of them.  The cut-off never turns a
   * directory with strays into one without.
   */
  method UnlistedFiles(os: System, t: Tree, listed: set<string>) returns (r: Option<seq<string>>)
    requires Lawful(os) && WellFormed(t)
    ensures r == Some([]) <==> forall c :: c in COMPONENTS ==> !IsFile(t, [c]) && StrayFree(t, c, listed)
    ensures r.None? ==> exists c :: c in COMPONENTS && IsFile(t, [c])
    ensures r.Some? ==> |r.value| <= 100 && forall s :: s in r.value ==> IsStray(t, listed, s)
    ensures r.Some? && |r.value| < 100 ==> forall c :: c in COMPONENTS ==> !IsFile(t, [c])
    ensures r.Some? && |r.value| < 100 ==> forall s :: IsStray(t, listed, s) ==> s in r.value
  {
    var stray: seq<string> := [];
    for i := 0 to |COMPONENTS|
      invariant |stray| < 100 && Searched(t, listed, i, stray)
    {
      var component := COMPONENTS[i];
      var more := UnlistedIn(os, t, component, listed, 100 - |stray|);
      if more.None? {
        assert component in COMPONENTS;
        return None;
      }
      if |stray + more.value| >= 100 {
        SomeStrays(t, listed, stray + more.value);
        return Some(stray + more.value);
      }
      SearchedOn(t, listed, i, stray, more.value);
      stray := stray + more.value;
    }
    r := Some(stray);
    AllReported(t, listed, stray);
  }

  /** The first components have been searched, and not in vain if there was anything. */
  ghost predicate Searched(t: Tree, listed: set<string>, i: nat, stray: seq<string>) {
    && i <= |COMPONENTS| && (forall s :: s in stray ==> IsStray(t, listed, s))
    && (stray == [] <==> forall k :: 0 <= k < i ==> StrayFree(t, COMPONENTS[k], listed))
    && forall k :: 0 <= k < i ==> !IsFile(t, [COMPONENTS[k]]) && Reported(t, COMPONENTS[k], listed, stray)
  }

  lemma SearchedOn(t: Tree, listed: set<string>, i: nat, stray: seq<string>, more: seq<string>)
    requires Searched(t, listed, i, stray) && i < |COMPONENTS| && !IsFile(t, [COMPONENTS[i]])
    requires (forall s :: s in more ==> IsStray(t, listed, s)) && Reported(t, COMPONENTS[i], listed, more)
    requires more == [] <==> StrayFree(t, COMPONENTS[i], listed)
    ensures Searched(t, listed, i + 1, stray + more)
  {
  }

  lemma SomeStrays(t: Tree, listed: set<string>, stray: seq<string>)
    requires stray != [] && forall s :: s in stray ==> IsStray(t, listed, s)
    ensures exists c :: c in COMPONENTS && !StrayFree(t, c, listed)
  {
    assert IsStray(t, listed, stray[0]);
    var p :| p in ComponentFiles(t) && Logical(p) == stray[0];
    assert [p[0]] <= p && !StrayFree(t, p[0], listed);
  }

  method UnlistedIn(os: System, t: Tree, component: string, listed: set<string>, limit: nat)
    returns (stray: Option<seq<string>>)
    requires Lawful(os) && WellFormed(t) && component in COMPONENTS && limit > 0
    ensures stray.None? <==> IsFile(t, [component])
    ensures stray.Some? ==>
              && |stray.value| <= limit && (stray.value == [] <==> StrayFree(t, component, listed))
              && (forall s :: s in stray.value ==> IsStray(t, listed, s))
              && (|stray.value| < limit ==> Reported(t, component, listed, stray.value))
  {
    var files := WalkTree(os, t, [component]);
    if files.None? {
      return None;
    }
    assert forall k :: 0 <= k < |files.value| ==> files.value[k] in files.value;
    var more := UnlistedAmong(files.value, listed, limit);
    ListingDecides(t, component, files.value, listed);
    if |more| < limit {
      ListingReports(t, component, files.value, listed, more);
    }
    forall s | s in more ensures IsStray(t, listed, s) {
      var p :| p in files.value && Logical(p) == s;
      assert p in ComponentFiles(t);
    }
    stray := Some(more);
  }

  lemma AllReported(t: Tree, listed: set<string>, stray: seq<string>)
    requires Searched(t, listed, |COMPONENTS|, stray)
    ensures forall s :: IsStray(t, listed, s) ==> s in stray
    ensures forall c :: c in COMPONENTS ==> !IsFile(t, [c])
    ensures stray == [] <==> forall c :: c in COMPONENTS ==> StrayFree(t, c, listed)
  {
    forall c | c in COMPONENTS
      ensures !IsFile(t, [c]) && Reported(t, c, listed, stray) && (stray == [] ==> StrayFree(t, c, listed))
    {
      var k :| 0 <= k < |COMPONENTS| && COMPONENTS[k] == c;
    }
    forall s | IsStray(t, listed, s) ensures s in stray {
      var p :| p in ComponentFiles(t) && Logical(p) == s;
      assert Reported(t, p[0], listed, stray) && [p[0]] <= p;
    }
    forall k | 0 <= k < |COMPONENTS| ensures COMPONENTS[k] in COMPONENTS {
    }
  }

  /** Every file of a component that is not listed is among these. */
  ghost predicate Reported(t: Tree, component: string, listed: set<string>, stray: seq<string>) {
    forall p :: p in t && t[p].File? && [component] <= p && Logical(p) !in listed ==> Logical(p) in stray
  }

  lemma ListingReports(t: Tree, component: string, files: seq<Path>, listed: set<string>, stray: seq<string>)
    requires IsListing(t, [component], files)
    requires forall p :: p in files && p != [] && Logical(p) !in listed ==> Logical(p) in stray
    ensures Reported(t, component, listed, stray)
  {
    forall p | p in t && t[p].File? && [component] <= p && Logical(p) !in listed ensures Logical(p) in stray {
      assert p in files;
    }
  }

  /** A component file's name that is not listed. */
  ghost predicate IsStray(t: Tree, listed: set<string>, s: string) {
    s !in listed && exists p :: p in ComponentFiles(t) && Logical(p) == s
  }

  lemma ListingDecides(t: Tree, component: string, files: seq<Path>, listed: set<string>)
    requires IsListing(t, [component], files)
    ensures (forall k :: 0 <= k < |files| ==> files[k] != [] && Logical(files[k]) in listed)
            <==> StrayFree(t, component, listed)
  {
    forall k | 0 <= k < |files| ensures IsFile(t, files[k]) && [component] <= files[k] {
      assert files[k] in files;
    }
    if StrayFree(t, component, listed) {
    } else {
      var p :| p in t && t[p].File? && [component] <= p && Logical(p) !in listed;
      assert p in files;
    }
  }

  method UnlistedAmong(files: seq<Path>, listed: set<string>, limit: nat) returns (stray: seq<string>)
    requires limit > 0 && forall k :: 0 <= k < |files| ==> files[k] != []
    ensures |stray| <= limit
    ensures stray == [] <==> forall k :: 0 <= k < |files| ==> Logical(files[k]) in listed
    ensures forall s :: s in stray ==> s !in listed && exists p :: p in files && Logical(p) == s
    ensures |stray| < limit ==> forall p :: p in files && Logical(p) !in listed ==> Logical(p) in stray
  {
    stray := [];
    for i := 0 to |files|
      invariant |stray| < limit
      invariant forall k :: 0 <= k < i && Logical(files[k]) !in listed ==> Logical(files[k]) in stray
      invariant forall s :: s in stray ==> s !in listed && exists p :: p in files && Logical(p) == s
      invariant stray == [] <==> forall k :: 0 <= k < i ==> Logical(files[k]) in listed
    {
      assert files[i] in files;
      if Logical(files[i]) !in listed {
        stray := stray + [Logical(files[i])];
      }
      if |stray| >= limit {
        return;
      }
    }
  }

  /** What is wrong with the files: an entry's, or one that is no entry's. */
  ghost predicate BlamesContents(env: Env, t: Tree, m: Manifest, q: Problem) {
    if q.Stray? then IsStray(t, ListedPaths(m), q.path) else exists f :: f in m.files && BlamesFile(env, t, m, f, q)
  }

  /** A problem there is room for: at most a hundred strays are named. */
  predicate RoomFor(problems: seq<Problem>, q: Problem) {
    q.Stray? ==> |problems| < 100
  }

  ghost predicate NamesContents(env: Env, t: Tree, m: Manifest, problems: seq<Problem>) {
    && (forall q :: q in problems ==> BlamesContents(env, t, m, q))
    && (forall q :: BlamesContents(env, t, m, q) && RoomFor(problems, q) ==> q in problems)
  }

  /** Reads every entry's file, then looks for files nobody listed. */
  method CheckContents(env: Env, os: System, t: Tree, m: Manifest)
    returns (problems: Option<seq<Problem>>, checksummed: nat, bytesRead: nat)
    requires Lawful(os) && WellFormed(t)
    ensures problems == Some([]) <==> Checksummed(env, t, m)
    ensures problems == Some([]) ==> checksummed == Saturate(|m.files|) && bytesRead == Saturate(SumSizes(m.files))
    ensures checksummed == Saturate(|Lengths(t, m, m.files)|) && bytesRead == Saturate(Sum(Lengths(t, m, m.files)))
    ensures problems.None? ==> exists c :: c in COMPONENTS && IsFile(t, [c])
    ensures problems.Some? ==> NamesContents(env, t, m, problems.value)
  {
    var damaged: seq<Problem>;
    damaged, checksummed, bytesRead := CheckFiles(env, os, t, m);
    var strays := UnlistedFiles(os, t, ListedPaths(m));
    if strays.None? {
      return None, checksummed, bytesRead;
    }
    var named := seq(|strays.value|, i requires 0 <= i < |strays.value| => Stray(strays.value[i]));
    NoneAtAll(damaged, named);
    problems := Some(damaged + named);
    ContentsNamed(env, t, m, strays.value, named);
  }

  lemma NoneAtAll<T>(a: seq<T>, b: seq<T>)
    ensures a + b == [] <==> a == [] && b == []
  {
  }

  lemma ContentsNamed(env: Env, t: Tree, m: Manifest, strays: seq<string>, named: seq<Problem>)
    requires |named| == |strays| && forall i :: 0 <= i < |strays| ==> named[i] == Stray(strays[i])
    requires forall s :: s in strays ==> IsStray(t, ListedPaths(m), s)
    requires |strays| < 100 ==> forall s :: IsStray(t, ListedPaths(m), s) ==> s in strays
    ensures NamesContents(env, t, m, Complaints(env, t, m, m.files) + named)
  {
    var damaged := Complaints(env, t, m, m.files);
    forall q ensures q in damaged + named <==> q in damaged || (q.Stray? && q.path in strays) {
      assert q in named <==> q.Stray? && q.path in strays by {
        assert q.Stray? && q.path in strays ==> exists i :: 0 <= i < |strays| && strays[i] == q.path && named[i] == q;
      }
    }
    forall q ensures q in damaged <==> !q.Stray? && BlamesContents(env, t, m, q) {
      ComplaintsNamed(env, t, m, m.files, q);
    }
  }

  ghost predicate Crossable(env: Env, t: Tree) {
    IsFile(t, CATALOG) && env.references(t[CATALOG].data).Some? && !IsFile(t, [OBJECTS])
  }

  /** What is wrong with the payloads: they cannot be checked, or so many of them are missing. */
  ghost predicate BlamesPayloads(env: Env, t: Tree, q: Problem) {
    match q
    case CrossCheckFailed => !Crossable(env, t)
    case PayloadsMissing(count) =>
      && Crossable(env, t) && count > 0
      && count == Saturate(|Missing(t, References(env.references(t[CATALOG].data).value))|)
    case _ => false
  }

  method CheckPayloads(env: Env, os: System, t: Tree) returns (problems: seq<Problem>, cross: Option<Cross>)
    requires Lawful(os) && WellFormed(t)
    ensures problems == [] <==> PayloadsPresent(env, t)
    ensures cross.Some? <==> Crossable(env, t)
    ensures cross.Some? ==>
              var all := References(env.references(t[CATALOG].data).value);
              cross.value == Cross(Saturate(|all|), Saturate(|Missing(t, all)|), Saturate(|Unreferenced(t, all)|))
    ensures forall q :: q in problems <==> BlamesPayloads(env, t, q)
  {
    if !IsFile(t, CATALOG) || env.references(t[CATALOG].data).None? {
      return [CrossCheckFailed], None;
    }
    var stored := env.references(t[CATALOG].data).value;
    cross := CrossCheck(os, t, stored);
    if cross.None? {
      return [CrossCheckFailed], None;
    }
    NoneMissing(t, References(stored));
    problems := if cross.value.missing > 0 then [PayloadsMissing(cross.value.missing)] else [];
  }

  /** What is wrong with the key: there is none, it cannot be compared, or it is another one. */
  ghost predicate BlamesKey(env: Env, t: Tree, m: Manifest, key: Option<Bytes>, q: Problem) {
    && m.encrypted
    && match q
      case NoKeySupplied => key.None?
      case KeyRecordUnreadable =>
        key.Some? && (RecordedKey(env, t).None? || env.keyReference(key.value).None?)
      case WrongKey =>
        && key.Some? && RecordedKey(env, t).Some? && env.keyReference(key.value).Some?
        && RecordedKey(env, t) != env.keyReference(key.value)
      case _ => false
  }

  method CheckKey(env: Env, t: Tree, m: Manifest, key: Option<Bytes>)
    returns (problems: seq<Problem>, matches: Option<bool>)
    ensures problems == [] <==> KeyConfirmed(env, t, m, key)
    ensures forall q :: q in problems <==> BlamesKey(env, t, m, key, q)
    ensures matches == Some(true) <==> m.encrypted && KeyConfirmed(env, t, m, key)
    ensures matches == Some(false) <==> WrongKey in problems
  {
    problems, matches := [], None;
    if m.encrypted {
      if key.None? {
        problems := [NoKeySupplied];
      } else {
        matches := KeyMatches(env, t, key.value);
        if matches.None? {
          problems := [KeyRecordUnreadable];
        } else if !matches.value {
          problems := [WrongKey];
        }
      }
    }
  }

  /** What is wrong with a backup but for the key: nothing is looked for once something is found. */
  ghost predicate BlamesBackup(env: Env, t: Tree, level: Level, m: Manifest, q: Problem) {
    if !Structured(m) then BlamesManifest(m, q)
    else if level == ManifestOnly then false
    else if !Checksummed(env, t, m) then BlamesContents(env, t, m, q)
    else level == Full && BlamesPayloads(env, t, q)
  }

  /** What is wrong with a backup, as far as this level looks and with this key. */
  ghost predicate Blames(env: Env, t: Tree, level: Level, key: Option<Bytes>, q: Problem) {
    if [INCOMPLETE] in t then q == MarkedIncomplete
    else
      match ReadManifest(env, t)
      case Err(error) => q == UnreadableManifest(error)
      case Ok(m) => BlamesBackup(env, t, level, m, q) || BlamesKey(env, t, m, key, q)
  }

  /** Each problem named is one there is, and each there is room for is named. */
  ghost predicate NamesProblems(env: Env, t: Tree, level: Level, key: Option<Bytes>, problems: seq<Problem>) {
    && (forall q :: q in problems ==> Blames(env, t, level, key, q))
    && (forall q :: Blames(env, t, level, key, q) && RoomFor(problems, q) ==> q in problems)
  }

  /** How much was read: every entry's file that can be, if the files were looked at. */
  ghost predicate Counts(t: Tree, m: Manifest, level: Level, checksummed: nat, bytesRead: nat) {
    if level != ManifestOnly && Structured(m) then
      checksummed == Saturate(|Lengths(t, m, m.files)|) && bytesRead == Saturate(Sum(Lengths(t, m, m.files)))
    else checksummed == 0 && bytesRead == 0
  }

  /** The cross-check, if it came to that and could be done. */
  ghost predicate Crosses(env: Env, t: Tree, m: Manifest, level: Level, cross: Option<Cross>) {
    if level == Full && Structured(m) && Checksummed(env, t, m) && Crossable(env, t) then
      var all := References(env.references(t[CATALOG].data).value);
      cross == Some(Cross(Saturate(|all|), Saturate(|Missing(t, all)|), Saturate(|Unreferenced(t, all)|)))
    else cross.None?
  }

  /** Whether the key is the right one, where there is something to compare. */
  ghost predicate KeySaid(env: Env, t: Tree, m: Manifest, key: Option<Bytes>, matches: Option<bool>) {
    && (matches == Some(true) <==> m.encrypted && KeyConfirmed(env, t, m, key))
    && (matches == Some(false) <==> BlamesKey(env, t, m, key, WrongKey))
  }

  /** What a verification of this directory, at this level and with this key, may report. */
  ghost predicate IsVerdict(env: Env, t: Tree, level: Level, key: Option<Bytes>, r: Result<Report, Failure>) {
    && (r.Err? ==>
          && level != ManifestOnly && !Usable(env, t, level, key)
          && exists c :: c in COMPONENTS && IsFile(t, [c]))
    && (r.Ok? ==>
          && (r.value.usable <==> Usable(env, t, level, key))
          && (r.value.usable <==> r.value.problems == []) && r.value.level == level
          && NamesProblems(env, t, level, key, r.value.problems))
    && (r.Ok? && [INCOMPLETE] !in t && ReadManifest(env, t).Ok? ==>
          var m := ReadManifest(env, t).value;
          && r.value.manifest == Some(m) && Counts(t, m, level, r.value.filesChecksummed, r.value.bytesRead)
          && Crosses(env, t, m, level, r.value.cross) && KeySaid(env, t, m, key, r.value.keyMatches))
    && (r.Ok? && r.value.usable ==>
          && r.value.manifest == Some(ReadManifest(env, t).value)
          && (r.value.manifest.value.encrypted ==> r.value.keyMatches == Some(true))
          && (level != ManifestOnly ==>
                && r.value.filesChecksummed == Saturate(|r.value.manifest.value.files|)
                && r.value.bytesRead == Saturate(SumSizes(r.value.manifest.value.files)))
          && (level == Full ==>
                var all := References(env.references(t[CATALOG].data).value);
                r.value.cross == Some(Cross(Saturate(|all|), 0, Saturate(|Unreferenced(t, all)|)))))
  }

  /**
   * `verify`: later checks are skipped once something is wrong, and still the
   * verdict is exactly `Usable` and the problems named are those there are.  The
   * one hard failure is a component that is not a directory, which no usable
   * backup has.
   */
  method Verify(env: Env, os: System, t: Tree, level: Level, key: Option<Bytes>) returns (r: Result<Report, Failure>)
    requires Lawful(os) && WellFormed(t)
    ensures IsVerdict(env, t, level, key, r)
  {
    var report := Report(level, false, 0, 0, None, None, [], None);
    if [INCOMPLETE] in t {
      return Ok(report.(problems := [MarkedIncomplete]));
    }
    var read := ReadManifest(env, t);
    if read.Err? {
      return Ok(report.(problems := [UnreadableManifest(read.error)]));
    }
    var manifest := read.value;
    var problems, checksummed, bytesRead, cross := Examine(env, os, t, level, manifest);
    if problems.None? {
      return Err(Io);
    }
    var keyProblems, matches := CheckKey(env, t, manifest, key);
    BothNamed(env, t, level, key, manifest, problems.value, keyProblems);
    var all := problems.value + keyProblems;
    r := Ok(Report(level, all == [], checksummed, bytesRead, cross, matches, all, Some(manifest)));
  }

  ghost predicate NamesBackup(env: Env, t: Tree, level: Level, m: Manifest, problems: seq<Problem>) {
    && (forall q :: q in problems ==> BlamesBackup(env, t, level, m, q))
    && (forall q :: BlamesBackup(env, t, level, m, q) && RoomFor(problems, q) ==> q in problems)
  }

  /** The checks that have nothing to do with the key, one after the other. */
  method Examine(env: Env, os: System, t: Tree, level: Level, m: Manifest)
    returns (problems: Option<seq<Problem>>, checksummed: nat, bytesRead: nat, cross: Option<Cross>)
    requires Lawful(os) && WellFormed(t)
    ensures problems.None? ==> level != ManifestOnly && exists c :: c in COMPONENTS && IsFile(t, [c])
    ensures problems.Some? ==> NamesBackup(env, t, level, m, problems.value)
    ensures problems.Some? ==> Counts(t, m, level, checksummed, bytesRead) && Crosses(env, t, m, level, cross)
    ensures problems == Some([]) <==>
            && Structured(m) && (level != ManifestOnly ==> Checksummed(env, t, m))
            && (level == Full ==> PayloadsPresent(env, t))
    ensures problems == Some([]) && level != ManifestOnly ==>
              checksummed == Saturate(|m.files|) && bytesRead == Saturate(SumSizes(m.files))
    ensures problems == Some([]) && level == Full ==>
              var all := References(env.references(t[CATALOG].data).value);
              cross == Some(Cross(Saturate(|all|), 0, Saturate(|Unreferenced(t, all)|)))
  {
    checksummed, bytesRead, cross := 0, 0, None;
    var found := CheckStructure(m);
    if level != ManifestOnly && found == [] {
      problems, checksummed, bytesRead := CheckContents(env, os, t, m);
      if problems.None? {
        return;
      }
      found := problems.value;
      if level == Full && found == [] {
        found, cross := CheckPayloads(env, os, t);
      }
    }
    problems := Some(found);
  }

  lemma BothNamed(env: Env, t: Tree, level: Level, key: Option<Bytes>, m: Manifest, found: seq<Problem>,
                  wrong: seq<Problem>)
    requires [INCOMPLETE] !in t && ReadManifest(env, t) == Ok(m)
    requires NamesBackup(env, t, level, m, found) && forall q :: q in wrong <==> BlamesKey(env, t, m, key, q)
    ensures NamesProblems(env, t, level, key, found + wrong)
  {
    forall q | Blames(env, t, level, key, q) && RoomFor(found + wrong, q) ensures q in found + wrong {
      assert RoomFor(found, q);
    }
  }

  // ------------------------------------------------------------- properties

  lemma UnstructuredIsBlamed(m: Manifest)
    ensures Structured(m) <==> forall q :: !BlamesManifest(m, q)
  {
    if m.formatVersion > FORMAT_VERSION {
      assert BlamesManifest(m, FormatTooNew);
    } else if m.storageVersion > SUPPORTED_STORAGE_FORMAT {
      assert BlamesManifest(m, StorageTooNew);
    } else if m.schemaVersion > SCHEMA_VERSION {
      assert BlamesManifest(m, SchemaTooNew);
    } else if path :| path in RequiredFor(m) && path !in ListedPaths(m) {
      RequiredExactly(m, path);
      assert BlamesManifest(m, NotListed(path));
    } else if f :| f in m.files && !SafeRelativePath(f.path) {
      assert BlamesManifest(m, UnsafeListed(f.path));
    } else {
      forall q ensures !BlamesManifest(m, q) {
        if q.NotListed? {
          RequiredExactly(m, q.path);
        }
      }
    }
  }

  lemma DamagedIsBlamed(env: Env, t: Tree, m: Manifest)
    requires Structured(m)
    ensures Checksummed(env, t, m) <==> forall q :: !BlamesContents(env, t, m, q)
  {
    if f :| f in m.files && !Intact(env, t, m, f) {
      assert BlamesFile(env, t, m, f, Complaint(env, t, m, f).value);
      assert BlamesContents(env, t, m, Complaint(env, t, m, f).value);
    } else if c :| c in COMPONENTS && IsFile(t, [c]) {
      NoComponentIsListed(m, c);
      assert [c] in ComponentFiles(t) && BlamesContents(env, t, m, Stray(Logical([c])));
    } else if c, p :| c in COMPONENTS && p in t && t[p].File? && [c] <= p && Logical(p) !in ListedPaths(m) {
      assert p in ComponentFiles(t) && BlamesContents(env, t, m, Stray(Logical(p)));
    } else {
      forall p | p in ComponentFiles(t) ensures Logical(p) in ListedPaths(m) {
        assert [p[0]] <= p && p[0] in COMPONENTS;
      }
    }
  }

  /** A safe path has more than one segment, a component's name only one. */
  lemma NoComponentIsListed(m: Manifest, c: string)
    requires Structured(m) && c in COMPONENTS
    ensures Logical([c]) !in ListedPaths(m)
  {
    ComponentNamesArePlain();
    assert PlainPath([c]);
    LogicalOfPlain([c]);
    SplitWhole(c, '/');
  }

  /** A backup is usable exactly when nothing is wrong with it. */
  lemma UsableIsBlameless(env: Env, t: Tree, level: Level, key: Option<Bytes>)
    ensures Usable(env, t, level, key) <==> forall q :: !Blames(env, t, level, key, q)
  {
    if [INCOMPLETE] in t {
      assert Blames(env, t, level, key, MarkedIncomplete);
    } else if ReadManifest(env, t).Err? {
      assert Blames(env, t, level, key, UnreadableManifest(ReadManifest(env, t).error));
    } else {
      var m := ReadManifest(env, t).value;
      UnstructuredIsBlamed(m);
      if Structured(m) {
        DamagedIsBlamed(env, t, m);
      }
      MissingIsBlamed(env, t);
      BackupIsBlamed(env, t, level, m);
      WrongKeyIsBlamed(env, t, m, key);
      BlamedTwice(env, t, level, key, m);
    }
  }

  lemma BackupIsBlamed(env: Env, t: Tree, level: Level, m: Manifest)
    requires Structured(m) <==> forall q :: !BlamesManifest(m, q)
    requires Structured(m) ==> (Checksummed(env, t, m) <==> forall q :: !BlamesContents(env, t, m, q))
    requires PayloadsPresent(env, t) <==> forall q :: !BlamesPayloads(env, t, q)
    ensures (forall q :: !BlamesBackup(env, t, level, m, q)) <==>
            && Structured(m) && (level != ManifestOnly ==> Checksummed(env, t, m))
            && (level == Full ==> PayloadsPresent(env, t))
  {
    if !Structured(m) {
      var q :| BlamesManifest(m, q);
      assert BlamesBackup(env, t, level, m, q);
    } else if level != ManifestOnly && !Checksummed(env, t, m) {
      var q :| BlamesContents(env, t, m, q);
      assert BlamesBackup(env, t, level, m, q);
    } else if level == Full && !PayloadsPresent(env, t) {
      var q :| BlamesPayloads(env, t, q);
      assert BlamesBackup(env, t, level, m, q);
    }
  }

  lemma BlamedTwice(env: Env, t: Tree, level: Level, key: Option<Bytes>, m: Manifest)
    requires [INCOMPLETE] !in t && ReadManifest(env, t) == Ok(m)
    ensures (forall q :: !Blames(env, t, level, key, q)) <==>
            (forall q :: !BlamesBackup(env, t, level, m, q)) && forall q :: !BlamesKey(env, t, m, key, q)
  {
    forall q ensures Blames(env, t, level, key, q) <==>
                     BlamesBackup(env, t, level, m, q) || BlamesKey(env, t, m, key, q)
    {
    }
  }

  lemma MissingIsBlamed(env: Env, t: Tree)
    ensures PayloadsPresent(env, t) <==> forall q :: !BlamesPayloads(env, t, q)
  {
    if !Crossable(env, t) {
      assert BlamesPayloads(env, t, CrossCheckFailed);
    } else {
      var all := References(env.references(t[CATALOG].data).value);
      NoneMissing(t, all);
      var n := Saturate(|Missing(t, all)|);
      assert n > 0 ==> BlamesPayloads(env, t, PayloadsMissing(n));
    }
  }

  lemma WrongKeyIsBlamed(env: Env, t: Tree, m: Manifest, key: Option<Bytes>)
    ensures KeyConfirmed(env, t, m, key) <==> forall q :: !BlamesKey(env, t, m, key, q)
  {
    if m.encrypted {
      if key.None? {
        assert BlamesKey(env, t, m, key, NoKeySupplied);
      } else if RecordedKey(env, t).None? || env.keyReference(key.value).None? {
        assert BlamesKey(env, t, m, key, KeyRecordUnreadable);
      } else if RecordedKey(env, t) != env.keyReference(key.value) {
        assert BlamesKey(env, t, m, key, WrongKey);
      }
    }
  }

  /**
   * A backup with encrypted payloads is usable with exactly the keys whose
   * reference it records, whatever else is asked for.
   */
  lemma KeyDecides(env: Env, t: Tree, level: Level, key: Bytes, other: Option<Bytes>)
    requires Usable(env, t, level, Some(key)) && ReadManifest(env, t).value.encrypted
    ensures IsFile(t, ENCRYPTION_RECORD) && env.keyRecord(t[ENCRYPTION_RECORD].data).Some?
    ensures Usable(env, t, level, other) <==>
            other.Some? && env.keyReference(other.value) == env.keyRecord(t[ENCRYPTION_RECORD].data)
  {
  }

  function Strength(level: Level): nat {
    match level
    case ManifestOnly => 0
    case Checksums => 1
    case Full => 2
  }

  /**
   * Two reports on one directory, with one key: what the stronger level finds
   * usable, the weaker one does too, without failing, on the same manifest, and
   * where both read the files, having read as many.
   */
  lemma LevelsAreOrdered(env: Env, t: Tree, key: Option<Bytes>, weaker: Level, stronger: Level,
                         first: Result<Report, Failure>, second: Result<Report, Failure>)
    requires IsVerdict(env, t, weaker, key, first) && IsVerdict(env, t, stronger, key, second)
    requires Strength(weaker) <= Strength(stronger) && second.Ok? && second.value.usable
    ensures first.Ok? && first.value.usable && first.value.manifest == second.value.manifest
    ensures weaker != ManifestOnly ==>
              && first.value.filesChecksummed == second.value.filesChecksummed
              && first.value.bytesRead == second.value.bytesRead
  {
    assert Usable(env, t, weaker, key);
  }

  /** No component file has a backslash in its name. */
  ghost predicate PlainComponents(t: Tree) {
    forall p :: p in ComponentFiles(t) ==> PlainPath(p)
  }

  /** The component files whose names have no backslash. */
  function PlainFiles(t: Tree): (files: map<Path, Bytes>) {
    map p | p in t && InComponent(p) && t[p].File? && PlainPath(p) :: t[p].data
  }

  /** Each of the others, read with separators, lies at the place of one of these. */
  ghost predicate Shadowed(t: Tree, files: map<Path, Bytes>) {
    forall p :: p in ComponentFiles(t) && !PlainPath(p) ==> Split(Logical(p), '/') in files
  }

  lemma AllPlain(t: Tree)
    requires PlainComponents(t)
    ensures PlainFiles(t) == ComponentFiles(t) && Shadowed(t, PlainFiles(t))
  {
    assert forall p :: p in PlainFiles(t) <==> p in ComponentFiles(t);
  }

  lemma InventoryNamed(t: Tree)
    requires WellFormed(t)
    ensures Named(ComponentFiles(t)) && Named(LiveFiles(t)) && Named(PlainFiles(t))
  {
  }

  /** A listed file that checks out is in the inventory of what is on disk. */
  lemma EntryIsOnDisk(env: Env, t: Tree, m: Manifest, f: BackupFile)
    requires m.formatVersion != 1 && SafeRelativePath(f.path)
    requires Intact(env, t, m, f)
    ensures (f.path, f.size, f.sha256) in InventoryOf(env, PlainFiles(t))
  {
    SafePathStaysInside(f.path);
    var p := Split(f.path, '/');
    assert p in PlainFiles(t) && Join(p, '/') == f.path;
  }

  /** A file on disk that is listed, where every listed file checks out, is an entry. */
  lemma FileIsAnEntry(env: Env, t: Tree, m: Manifest, p: Path)
    requires m.formatVersion != 1 && WellFormed(t) && p in PlainFiles(t)
    requires forall f :: f in m.files ==> Intact(env, t, m, f)
    requires Logical(p) in ListedPaths(m)
    ensures (Join(p, '/'), Size(t[p].data), env.digest(t[p].data)) in EntriesOf(m)
  {
    LogicalOfPlain(p);
    var f :| f in m.files && f.path == Logical(p);
    assert Intact(env, t, m, f);
    assert SourcePath(m, f) == p;
  }

  lemma EntryIsIntact(env: Env, t: Tree, m: Manifest, f: BackupFile)
    requires m.formatVersion != 1 && WellFormed(t)
    requires (f.path, f.size, f.sha256) in InventoryOf(env, PlainFiles(t))
    ensures Intact(env, t, m, f)
  {
    var p :| p in PlainFiles(t) && f.path == Join(p, '/')
             && f.size == Size(t[p].data) && f.sha256 == env.digest(t[p].data);
    forall part | part in p ensures '/' !in part {
      assert ValidName(part);
    }
    SplitOfJoin(p, '/');
  }

  /** The listed paths of a manifest that describes these files are their places. */
  lemma ListedExactlyThese(env: Env, m: Manifest, files: map<Path, Bytes>, path: string)
    requires Named(files) && EntriesOf(m) == InventoryOf(env, files)
    ensures path in ListedPaths(m) <==> Split(path, '/') in files
  {
    var p := Split(path, '/');
    JoinOfSplit(path, '/');
    if path in ListedPaths(m) {
      var f :| f in m.files && f.path == path;
      assert (f.path, f.size, f.sha256) in EntriesOf(m);
      var q :| q in files && (f.path, f.size, f.sha256) == (Join(q, '/'), Size(files[q]), env.digest(files[q]));
      assert ValidPath(q);
      forall part | part in q ensures '/' !in part {
        assert ValidName(part);
      }
      SplitOfJoin(q, '/');
    }
    if p in files {
      assert (path, Size(files[p]), env.digest(files[p])) in InventoryOf(env, files);
      assert (path, Size(files[p]), env.digest(files[p])) in EntriesOf(m);
    }
  }

  /** What listing every file, and looking no further, comes to. */
  lemma StrayFreeExactly(env: Env, t: Tree, m: Manifest)
    requires WellFormed(t) && EntriesOf(m) == InventoryOf(env, PlainFiles(t))
    ensures (forall p :: p in ComponentFiles(t) ==> Logical(p) in ListedPaths(m)) <==> Shadowed(t, PlainFiles(t))
  {
    forall p | p in ComponentFiles(t)
      ensures Logical(p) in ListedPaths(m) <==> Split(Logical(p), '/') in PlainFiles(t)
    {
      ListedExactlyThese(env, m, PlainFiles(t), Logical(p));
    }
    forall p | p in PlainFiles(t) ensures Split(Logical(p), '/') == p {
      LogicalOfPlain(p);
    }
  }

  lemma SomeStrayOrNone(t: Tree, listed: set<string>)
    ensures (forall c :: c in COMPONENTS ==> StrayFree(t, c, listed)) <==>
            forall p :: p in ComponentFiles(t) ==> Logical(p) in listed
  {
    if forall c :: c in COMPONENTS ==> StrayFree(t, c, listed) {
      forall p | p in ComponentFiles(t) ensures Logical(p) in listed {
        assert StrayFree(t, p[0], listed) && [p[0]] <= p;
      }
    }
    if forall p :: p in ComponentFiles(t) ==> Logical(p) in listed {
      forall c, p | c in COMPONENTS && p in t && t[p].File? && [c] <= p ensures Logical(p) in listed {
        assert p in ComponentFiles(t);
      }
    }
  }

  lemma CheckedIsInventory(env: Env, t: Tree, m: Manifest)
    requires m.formatVersion != 1 && Structured(m) && WellFormed(t) && Checksummed(env, t, m)
    ensures EntriesOf(m) == InventoryOf(env, PlainFiles(t))
  {
    var disk := InventoryOf(env, PlainFiles(t));
    SomeStrayOrNone(t, ListedPaths(m));
    forall e | e in EntriesOf(m) ensures e in disk {
      var f :| f in m.files && e == (f.path, f.size, f.sha256);
      EntryIsOnDisk(env, t, m, f);
    }
    forall e | e in disk ensures e in EntriesOf(m) {
      var p :| p in PlainFiles(t) && e == (Join(p, '/'), Size(t[p].data), env.digest(t[p].data));
      FileIsAnEntry(env, t, m, p);
    }
  }

  lemma InventoryIsChecked(env: Env, t: Tree, m: Manifest)
    requires m.formatVersion != 1 && Structured(m) && WellFormed(t)
    requires EntriesOf(m) == InventoryOf(env, PlainFiles(t)) && Shadowed(t, PlainFiles(t))
    ensures Checksummed(env, t, m)
  {
    StrayFreeExactly(env, t, m);
    SomeStrayOrNone(t, ListedPaths(m));
    forall f | f in m.files ensures Intact(env, t, m, f) {
      assert (f.path, f.size, f.sha256) in EntriesOf(m);
      EntryIsIntact(env, t, m, f);
    }
    forall c | c in COMPONENTS ensures !IsFile(t, [c]) {
      ComponentItselfIsUnsafe(m, c);
      assert IsFile(t, [c]) ==> [c] in ComponentFiles(t);
    }
  }

  /**
   * What the checksums level decides, on a format 2 backup: the files under the
   * three components whose names have no backslash are the manifest's entries, in
   * both directions, and a file that has one lies, read with separators, where one
   * of those does.
   */
  lemma ChecksumsAreExact(env: Env, t: Tree, m: Manifest)
    requires m.formatVersion != 1 && Structured(m) && WellFormed(t)
    ensures Checksummed(env, t, m) <==>
            EntriesOf(m) == InventoryOf(env, PlainFiles(t)) && Shadowed(t, PlainFiles(t))
  {
    if Checksummed(env, t, m) {
      CheckedIsInventory(env, t, m);
      SomeStrayOrNone(t, ListedPaths(m));
      StrayFreeExactly(env, t, m);
    }
    if EntriesOf(m) == InventoryOf(env, PlainFiles(t)) && Shadowed(t, PlainFiles(t)) {
      InventoryIsChecked(env, t, m);
    }
  }

  lemma ComponentItselfIsUnsafe(m: Manifest, c: string)
    requires Structured(m) && c in COMPONENTS
    ensures Logical([c]) !in ListedPaths(m)
  {
    ComponentNamesArePlain();
    assert ValidPath([c]) && PlainPath([c]);
    LogicalOfPlain([c]);
    assert !SafeRelativePath(Logical([c]));
  }
}
