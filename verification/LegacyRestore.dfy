/** Version 1 backups: the metadata-only restore, and its agreement with `restore`. */
module LegacyRestore {
  import opened Wrappers
  import opened Text
  import opened Filesystem
  import opened Layout
  import opened Copying
  import opened Manifests
  import opened Restores
  import opened RestoreEffect
  import opened Disks

  // -------------------------------------------------------------------- names

  predicate PlainChar(c: char) {
    'a' <= c <= 'z' || 'A' <= c <= 'Z' || '0' <= c <= '9' || c == '-' || c == '_' || c == '.'
  }

  predicate ValidBackupFilename(name: string) {
    name != "" && ByteLength(name) <= 128 && EndsWith(name, ".redb") && forall c :: c in name ==> PlainChar(c)
  }

  /** An accepted name is one plain path segment: nothing it names can lie outside the directory. */
  lemma FilenameIsPlain(name: string)
    requires ValidBackupFilename(name)
    ensures ValidName(name) && '/' !in name && '\\' !in name
  {
    assert !PlainChar('/') && !PlainChar('\\') && !PlainChar('\0');
    assert |name| >= 5;
  }

  lemma OnePart(name: string)
    requires '/' !in name
    ensures Split(name, '/') == [name]
  {
    SplitOfJoin([name], '/');
  }

  lemma FilenameSplits(name: string)
    requires '/' !in name
    ensures Split(name, '/') == [name] && Split("metadata/" + name, '/') == [METADATA, name]
  {
    OnePart(name);
    var parts := [METADATA, name];
    assert parts[1..] == [name];
    assert "metadata/" + name == METADATA + ['/'] + name == Join(parts, '/');
    SplitOfJoin(parts, '/');
  }

  // ------------------------------------------------------------------- script

  const LEGACY_LIMIT: nat := 1024 * 1024

  /** The manifest, if it is there, small enough, readable and of a version this release knows. */
  function LegacyManifestIn(env: Env, input: Tree): Option<LegacyManifest> {
    if !IsFile(input, [LEGACY_MANIFEST]) || |input[[LEGACY_MANIFEST]].data| > LEGACY_LIMIT then None
    else
      match env.decodeLegacy(input[[LEGACY_MANIFEST]].data)
      case None => None
      case Some(legacy) =>
        if legacy.formatVersion != 1 || legacy.schemaVersion > SCHEMA_VERSION then None else Some(legacy)
  }

  /** What is said when it is not taken. */
  function LegacyRefusal(env: Env, input: Tree): Failure {
    if !IsFile(input, [LEGACY_MANIFEST]) then Io
    else if |input[[LEGACY_MANIFEST]].data| > LEGACY_LIMIT then InvalidManifest
    else if env.decodeLegacy(input[[LEGACY_MANIFEST]].data).None? then InvalidManifest
    else IncompatibleVersion
  }

  function LegacyCopy(env: Env, input: Tree, f: LegacyFile): Copy {
    if IsFile(input, Split(f.name, '/')) then
      var data := input[Split(f.name, '/')].data;
      Copy(f.name, Some(data), Size(data) == f.size && env.digest(data) == f.sha256)
    else Copy(f.name, None, false)
  }

  function LegacyCopies(env: Env, input: Tree, files: seq<LegacyFile>): (copies: seq<Copy>)
    ensures |copies| == |files|
    ensures forall i :: 0 <= i < |files| ==> copies[i] == LegacyCopy(env, input, files[i])
  {
    seq(|files|, i requires 0 <= i < |files| => LegacyCopy(env, input, files[i]))
  }

  function LegacyCopyOps(os: System, temp: string, c: Copy): seq<Op> {
    Guard(ValidBackupFilename(c.path))
    + if c.data.None? then [Stop] else CopyBody(os, [temp, c.path], c.data.value) + Guard(c.accepted)
  }

  function LegacyCopyAllOps(os: System, temp: string, copies: seq<Copy>): seq<Op> {
    if copies == [] then [] else LegacyCopyOps(os, temp, copies[0]) + LegacyCopyAllOps(os, temp, copies[1..])
  }

  function LegacyStageOps(env: Env, os: System, input: Tree, legacy: LegacyManifest, temp: string): seq<Op> {
    [MakeDir([temp])] + LegacyCopyAllOps(os, temp, LegacyCopies(env, input, legacy.files))
  }

  function SwapOps(t: Tree, temp: string): seq<Op> {
    (if [METADATA] in t then [Unlink([METADATA])] else []) + [Rename([temp], [METADATA])]
  }

  /** Everything done once the target and the manifest have been found in order. */
  function ReplaceOps(env: Env, os: System, t: Tree, input: Tree, legacy: LegacyManifest, temp: string): seq<Op> {
    var stage := LegacyStageOps(env, os, input, legacy, temp);
    stage + SwapOps(After(t, stage), temp)
  }

  function LegacyScript(env: Env, os: System, t: Tree, input: Tree, temp: string): seq<Op> {
    [MakeDirs([])] + AfterOpening(env, os, Apply(t, MakeDirs([])), input, temp)
  }

  function AfterOpening(env: Env, os: System, t: Tree, input: Tree, temp: string): seq<Op> {
    if !EmptyOrAbsent(t, [METADATA]) then [Stop]
    else
      match LegacyManifestIn(env, input)
      case None => [Stop]
      case Some(legacy) => ReplaceOps(env, os, t, input, legacy, temp)
  }

  // ------------------------------------------------------------------- effect

  /** The files a version 1 manifest names, with the bytes the directory holds for them. */
  function LegacyFiles(env: Env, input: Tree, files: seq<LegacyFile>): map<Path, Bytes> {
    Staged(LegacyCopies(env, input, files))
  }

  function Staged(copies: seq<Copy>): map<Path, Bytes> {
    if copies == [] then map[]
    else
      (if copies[0].data.Some? then map[[copies[0].path] := copies[0].data.value] else map[]) + Staged(copies[1..])
  }

  function Rooted(temp: string, copies: seq<Copy>): map<Path, Bytes> {
    if copies == [] then map[]
    else
      (if copies[0].data.Some? then map[[temp, copies[0].path] := copies[0].data.value] else map[])
      + Rooted(temp, copies[1..])
  }

  lemma {:induction false} RootedIsStaged(temp: string, copies: seq<Copy>, q: Path)
    ensures Lookup(Rooted(temp, copies), [temp] + q) == Lookup(Staged(copies), q)
    decreases |copies|
  {
    if copies != [] {
      RootedIsStaged(temp, copies[1..], q);
      assert [temp] + q == [temp, copies[0].path] <==> q == [copies[0].path] by {
        assert ([temp] + q)[1..] == q && [temp, copies[0].path][1..] == [copies[0].path];
      }
    }
  }

  predicate Admissible(c: Copy) {
    ValidBackupFilename(c.path) && c.data.Some? && c.accepted
  }

  lemma LegacyCopyEffect(os: System, t: Tree, temp: string, c: Copy)
    requires Executes(t, LegacyCopyOps(os, temp, c))
    ensures Admissible(c) && [temp, c.path] !in t
    ensures After(t, LegacyCopyOps(os, temp, c)) == t[[temp, c.path] := File(c.data.value)]
    ensures Files(After(t, LegacyCopyOps(os, temp, c))) == Files(t)[[temp, c.path] := c.data.value]
  {
    var guard := Guard(ValidBackupFilename(c.path));
    var body := if c.data.None? then [Stop] else CopyBody(os, [temp, c.path], c.data.value) + Guard(c.accepted);
    AfterConcat(t, guard, body);
    if c.data.Some? {
      AfterConcat(t, CopyBody(os, [temp, c.path], c.data.value), Guard(c.accepted));
      CopyBodyEffect(os, t, [temp, c.path], c.data.value);
    }
  }

  lemma {:induction false} LegacyCopiesEffect(os: System, t: Tree, temp: string, copies: seq<Copy>)
    requires Executes(t, LegacyCopyAllOps(os, temp, copies))
    ensures forall c :: c in copies ==> Admissible(c)
    ensures Files(After(t, LegacyCopyAllOps(os, temp, copies))) == Files(t) + Rooted(temp, copies)
    ensures Files(t).Keys !! Rooted(temp, copies).Keys
    decreases |copies|
  {
    if copies != [] {
      var c, rest := copies[0], copies[1..];
      var u := After(t, LegacyCopyOps(os, temp, c));
      AfterConcat(t, LegacyCopyOps(os, temp, c), LegacyCopyAllOps(os, temp, rest));
      LegacyCopyEffect(os, t, temp, c);
      LegacyCopiesEffect(os, u, temp, rest);
      assert forall d :: d in copies ==> d == c || d in rest;
      AddFirst(Files(t), [temp, c.path], c.data.value, Rooted(temp, rest));
    }
  }

  lemma LegacyStageEffect(env: Env, os: System, t: Tree, input: Tree, legacy: LegacyManifest, temp: string, q: Path)
    requires WellFormed(t) && Executes(t, LegacyStageOps(env, os, input, legacy, temp))
    ensures forall c :: c in LegacyCopies(env, input, legacy.files) ==> Admissible(c)
    ensures FileAt(After(t, LegacyStageOps(env, os, input, legacy, temp)), [temp] + q)
            == Lookup(LegacyFiles(env, input, legacy.files), q)
  {
    var copies, u := LegacyCopies(env, input, legacy.files), Apply(t, MakeDir([temp]));
    AfterConcat(t, [MakeDir([temp])], LegacyCopyAllOps(os, temp, copies));
    AfterOne(t, MakeDir([temp]));
    LegacyCopiesEffect(os, u, temp, copies);
    RootedIsStaged(temp, copies, q);
    VacantBelow(t, [temp]);
    assert [temp] <= [temp] + q;
    assert [temp] + q !in Files(u);
    var v := After(u, LegacyCopyAllOps(os, temp, copies));
    assert FileAt(v, [temp] + q) == Lookup(Files(v), [temp] + q);
  }

  lemma SwapEffect(t: Tree, temp: string, q: Path)
    requires WellFormed(t) && temp != METADATA && Executes(t, SwapOps(t, temp))
    ensures FileAt(After(t, SwapOps(t, temp)), [METADATA] + q) == FileAt(t, [temp] + q)
  {
    var remove := if [METADATA] in t then [Unlink([METADATA])] else [];
    var u := After(t, remove);
    AfterSnoc(t, remove, Rename([temp], [METADATA]));
    AfterOne(t, Unlink([METADATA]));
    RenameEffect(u, [temp], [METADATA], [METADATA] + q);
    assert ([METADATA] + q)[1..] == q && [METADATA] <= [METADATA] + q;
    assert FileAt(u, [temp] + q) == FileAt(t, [temp] + q) by {
      assert ([temp] + q)[0] == temp;
    }
  }

  /** A finished version 1 restore: the metadata component is the manifest's files. */
  lemma LegacyRestored(env: Env, os: System, t: Tree, input: Tree, temp: string, q: Path)
    requires WellFormed(t) && temp != METADATA && Executes(t, LegacyScript(env, os, t, input, temp))
    ensures LegacyManifestIn(env, input).Some?
    ensures var legacy := LegacyManifestIn(env, input).value;
            && (forall c :: c in LegacyCopies(env, input, legacy.files) ==> Admissible(c))
            && FileAt(After(t, LegacyScript(env, os, t, input, temp)), [METADATA] + q)
               == Lookup(LegacyFiles(env, input, legacy.files), q)
  {
    var u := Apply(t, MakeDirs([]));
    AfterOne(t, MakeDirs([]));
    AfterConcat(t, [MakeDirs([])], AfterOpening(env, os, u, input, temp));
    AfterWellFormed(t, [MakeDirs([])]);
    assert AfterOpening(env, os, u, input, temp) != [Stop];
    ReplaceEffect(env, os, u, input, LegacyManifestIn(env, input).value, temp, q);
  }

  lemma ReplaceEffect(env: Env, os: System, t: Tree, input: Tree, legacy: LegacyManifest, temp: string, q: Path)
    requires WellFormed(t) && temp != METADATA && Executes(t, ReplaceOps(env, os, t, input, legacy, temp))
    ensures forall c :: c in LegacyCopies(env, input, legacy.files) ==> Admissible(c)
    ensures FileAt(After(t, ReplaceOps(env, os, t, input, legacy, temp)), [METADATA] + q)
            == Lookup(LegacyFiles(env, input, legacy.files), q)
  {
    var stage := LegacyStageOps(env, os, input, legacy, temp);
    var v := After(t, stage);
    AfterConcat(t, stage, SwapOps(v, temp));
    AfterWellFormed(t, stage);
    LegacyStageEffect(env, os, t, input, legacy, temp, q);
    SwapEffect(v, temp, q);
  }

  // ---------------------------------------------------------------- agreement

  /** What `restore` takes a version 1 entry to be is what `restore_metadata` takes it to be. */
  lemma SameCopy(env: Env, input: Tree, legacy: LegacyManifest, m: Manifest, i: nat)
    requires LegacyAsModern(legacy) == Ok(m) && i < |legacy.files|
    requires Admissible(LegacyCopy(env, input, legacy.files[i]))
    ensures var first, second := LegacyCopy(env, input, legacy.files[i]), RestoreCopy(env, input, m, m.files[i]);
            second.data == first.data && Target([], second) == [METADATA, first.path]
  {
    LegacySourceIsTheOriginal(legacy, i);
    FilenameIsPlain(legacy.files[i].name);
    FilenameSplits(legacy.files[i].name);
    assert [] + [METADATA, legacy.files[i].name] == [METADATA, legacy.files[i].name];
  }

  lemma {:induction false} SameFiles(first: seq<Copy>, second: seq<Copy>, q: Path)
    requires |first| == |second|
    requires forall i :: 0 <= i < |first| ==>
               second[i].data == first[i].data && Target([], second[i]) == [METADATA, first[i].path]
    ensures Lookup(Copied([], second), [METADATA] + q) == Lookup(Staged(first), q)
    decreases |first|
  {
    if first != [] {
      SameFiles(first[1..], second[1..], q);
      assert [METADATA] + q == [METADATA, first[0].path] <==> q == [first[0].path] by {
        assert ([METADATA] + q)[1..] == q && [METADATA, first[0].path][1..] == [first[0].path];
      }
    }
  }

  /**
   * Either command brings back the same metadata component from a version 1
   * directory: whatever two data directories they start from, whichever of them
   * is used, every file below `metadata` ends up the same.
   */
  lemma BothRestoresAgree(env: Env, os: System, input: Tree, m: Manifest,
                          t: Tree, temp: string, t': Tree, staging: string, note: Bytes, q: Path)
    requires Lawful(os) && WellFormed(t) && WellFormed(t') && temp != METADATA && IsStagingName(staging)
    requires !IsFile(input, [MANIFEST]) && IsFile(input, [LEGACY_MANIFEST])
    requires env.decode(input[[LEGACY_MANIFEST]].data).None? && ReadManifest(env, input) == Ok(m)
    requires Executes(t, LegacyScript(env, os, t, input, temp))
    requires Executes(t', RestoreScript(env, os, t', input, m, staging, note))
    ensures FileAt(After(t, LegacyScript(env, os, t, input, temp)), [METADATA] + q)
            == FileAt(After(t', RestoreScript(env, os, t', input, m, staging, note)), [METADATA] + q)
  {
    LegacyRestored(env, os, t, input, temp, q);
    var legacy := LegacyManifestIn(env, input).value;
    assert LegacyAsModern(legacy) == Ok(m);
    var first, second := LegacyCopies(env, input, legacy.files), RestoreCopies(env, input, m, m.files);
    forall i | 0 <= i < |first|
      ensures second[i].data == first[i].data && Target([], second[i]) == [METADATA, first[i].path]
    {
      assert first[i] in first;
      SameCopy(env, input, legacy, m, i);
    }
    SameFiles(first, second, q);
    NewRestored(env, os, t', input, m, staging, note, q);
  }

  lemma NewRestored(env: Env, os: System, t: Tree, source: Tree, m: Manifest, staging: string, note: Bytes, q: Path)
    requires Lawful(os) && WellFormed(t) && IsStagingName(staging)
    requires Executes(t, RestoreScript(env, os, t, source, m, staging, note))
    ensures FileAt(After(t, RestoreScript(env, os, t, source, m, staging, note)), [METADATA] + q)
            == Lookup(Restored(env, source, m), [METADATA] + q)
  {
    RestoreCompleted(env, os, t, source, m, staging, note);
    var u := After(t, RestoreScript(env, os, t, source, m, staging, note));
    assert InComponent([METADATA] + q);
    assert FileAt(u, [METADATA] + q) == Lookup(ComponentFiles(u), [METADATA] + q);
  }

  // ------------------------------------------------------------ interruptions

  /** Nothing below `metadata`, which is itself at most a directory. */
  ghost predicate Cleared(t: Tree) {
    forall q :: q in t && [METADATA] <= q ==> q == [METADATA] && t[q].Dir?
  }

  predicate Harmless(op: Op) {
    !Touches(op, METADATA) || op == Unlink([METADATA])
  }

  lemma {:induction false} StaysCleared(t: Tree, ops: seq<Op>)
    requires Cleared(t) && Executes(t, ops) && forall op :: op in ops ==> Harmless(op)
    ensures Cleared(After(t, ops))
    decreases |ops|
  {
    if ops != [] {
      var u := Apply(t, ops[0]);
      assert ops[0] in ops && Harmless(ops[0]);
      if !Touches(ops[0], METADATA) {
        FrameOne(t, ops[0], METADATA);
        forall q | q in u && [METADATA] <= q ensures q == [METADATA] && u[q].Dir? {
          assert SameAt(t, u, q);
        }
      }
      StaysCleared(u, ops[1..]);
    }
  }

  lemma {:induction false} StagingIsHarmless(os: System, temp: string, copies: seq<Copy>)
    requires temp != METADATA
    ensures forall op :: op in LegacyCopyAllOps(os, temp, copies) ==> Harmless(op)
    decreases |copies|
  {
    if copies != [] {
      StagingIsHarmless(os, temp, copies[1..]);
      var c := copies[0];
      if c.data.Some? {
        AppendsTouch(os, [temp, c.path], c.data.value, 0, METADATA);
      }
      assert forall op :: op in LegacyCopyOps(os, temp, c) ==> Harmless(op);
    }
  }

  lemma FrontIsHarmless(env: Env, os: System, input: Tree, legacy: LegacyManifest, temp: string, remove: seq<Op>)
    requires temp != METADATA && (remove == [] || remove == [Unlink([METADATA])])
    ensures forall op :: op in LegacyStageOps(env, os, input, legacy, temp) + remove ==> Harmless(op)
  {
    StagingIsHarmless(os, temp, LegacyCopies(env, input, legacy.files));
  }

  lemma ReplaceInterrupted(env: Env, os: System, t: Tree, input: Tree, legacy: LegacyManifest, temp: string,
                           done: seq<Op>)
    requires Cleared(t) && temp != METADATA
    requires done < ReplaceOps(env, os, t, input, legacy, temp) && Executes(t, done)
    ensures Cleared(After(t, done))
  {
    var stage := LegacyStageOps(env, os, input, legacy, temp);
    var remove := if [METADATA] in After(t, stage) then [Unlink([METADATA])] else [];
    assert ReplaceOps(env, os, t, input, legacy, temp) == (stage + remove) + [Rename([temp], [METADATA])];
    assert done <= stage + remove;
    FrontIsHarmless(env, os, input, legacy, temp, remove);
    assert forall op :: op in done ==> op in stage + remove;
    StaysCleared(t, done);
  }

  /**
   * A version 1 restore puts the metadata in place with its last step.  Stopped
   * anywhere before it, the metadata component is as empty as it was found, or
   * was found populated and has not been touched.
   */
  lemma LegacyInterrupted(env: Env, os: System, t: Tree, input: Tree, temp: string, done: seq<Op>, q: Path)
    requires WellFormed(t) && temp != METADATA
    requires done < LegacyScript(env, os, t, input, temp) && Executes(t, done)
    ensures FileAt(After(t, done), [METADATA] + q) == FileAt(t, [METADATA] + q)
  {
    var u, rest := Apply(t, MakeDirs([])), AfterOpening(env, os, Apply(t, MakeDirs([])), input, temp);
    FileAtMake(t, [], [METADATA] + q);
    if done != [] {
      ApplyWellFormed(t, MakeDirs([]));
      PastFirst(t, MakeDirs([]), rest, done);
      if done[1..] != [] {
        RestInterrupted(env, os, u, input, temp, done[1..], q);
      }
    }
  }

  lemma PastFirst(t: Tree, op: Op, rest: seq<Op>, done: seq<Op>)
    requires done < [op] + rest && done != [] && Executes(t, done)
    ensures done[1..] < rest && Executes(Apply(t, op), done[1..]) && After(t, done) == After(Apply(t, op), done[1..])
  {
    assert done[0] == op;
    assert rest == ([op] + rest)[1..];
  }

  lemma RestInterrupted(env: Env, os: System, t: Tree, input: Tree, temp: string, done: seq<Op>, q: Path)
    requires WellFormed(t) && temp != METADATA && done != []
    requires done < AfterOpening(env, os, t, input, temp) && Executes(t, done)
    ensures FileAt(After(t, done), [METADATA] + q) == FileAt(t, [METADATA] + q)
  {
    assert |AfterOpening(env, os, t, input, temp)| >= 2;
    if [METADATA] !in t {
      VacantBelow(t, [METADATA]);
    }
    assert [METADATA] <= [METADATA] + q;
    ReplaceInterrupted(env, os, t, input, LegacyManifestIn(env, input).value, temp, done);
  }

  // ------------------------------------------------------- the other components

  lemma {:induction false} LegacyCopiesTouch(os: System, temp: string, copies: seq<Copy>, name: string)
    requires temp != name
    ensures NoneTouch(LegacyCopyAllOps(os, temp, copies), name)
    decreases |copies|
  {
    if copies != [] {
      var c := copies[0];
      LegacyCopiesTouch(os, temp, copies[1..], name);
      if c.data.Some? {
        AppendsTouch(os, [temp, c.path], c.data.value, 0, name);
      }
      assert NoneTouch(LegacyCopyOps(os, temp, c), name);
    }
  }

  lemma LegacyTouches(env: Env, os: System, t: Tree, input: Tree, temp: string, name: string)
    requires name != temp && name != METADATA
    ensures NoneTouch(LegacyScript(env, os, t, input, temp), name)
  {
    var u := Apply(t, MakeDirs([]));
    if LegacyManifestIn(env, input).Some? {
      var legacy := LegacyManifestIn(env, input).value;
      LegacyCopiesTouch(os, temp, LegacyCopies(env, input, legacy.files), name);
      assert NoneTouch(SwapOps(After(u, LegacyStageOps(env, os, input, legacy, temp)), temp), name);
      assert NoneTouch(ReplaceOps(env, os, u, input, legacy, temp), name);
    }
  }

  /** Files moved below a new directory. */
  function Beneath(name: string, files: map<Path, Bytes>): (below: map<Path, Bytes>)
    ensures forall p :: p in below ==> p != [] && p[0] == name
  {
    assert forall q: Path :: ([name] + q)[1..] == q;
    map q | q in files :: [name] + q := files[q]
  }

  lemma BeneathAt(name: string, files: map<Path, Bytes>, q: Path)
    ensures Lookup(Beneath(name, files), [name] + q) == Lookup(files, q)
  {
    assert forall r: Path :: ([name] + r)[1..] == r;
  }

  /** The metadata component replaced, the others as they were. */
  function WithMetadata(files: map<Path, Bytes>, metadata: map<Path, Bytes>): map<Path, Bytes> {
    (map p | p in files && InComponent(p) && p[0] != METADATA :: files[p]) + Beneath(METADATA, metadata)
  }

  /** The component files a finished version 1 restore leaves. */
  function MetadataResult(env: Env, t: Tree, input: Tree): map<Path, Bytes> {
    match LegacyManifestIn(env, input)
    case None => ComponentFiles(t)
    case Some(legacy) => WithMetadata(ComponentFiles(t), LegacyFiles(env, input, legacy.files))
  }

  ghost predicate SameOthers(t: Tree, u: Tree) {
    SameUnder(t, u, SYSTEM) && SameUnder(t, u, OBJECTS)
  }

  lemma MetadataReplaced(t: Tree, u: Tree, metadata: map<Path, Bytes>)
    requires SameOthers(t, u) && forall q :: FileAt(u, [METADATA] + q) == Lookup(metadata, q)
    ensures ComponentFiles(u) == WithMetadata(ComponentFiles(t), metadata)
  {
    var files := WithMetadata(ComponentFiles(t), metadata);
    forall p | InComponent(p) ensures FileAt(u, p) == Lookup(files, p) {
      if p[0] == METADATA {
        assert p == [METADATA] + p[1..];
        BeneathAt(METADATA, metadata, p[1..]);
      } else {
        assert SameAt(t, u, p);
      }
    }
    SameLookups(u, files);
  }

  lemma MetadataKept(t: Tree, u: Tree)
    requires SameOthers(t, u) && forall q :: FileAt(u, [METADATA] + q) == FileAt(t, [METADATA] + q)
    ensures ComponentFiles(u) == ComponentFiles(t)
  {
    forall p | InComponent(p) ensures FileAt(u, p) == Lookup(ComponentFiles(t), p) {
      if p[0] == METADATA {
        assert p == [METADATA] + p[1..];
      } else {
        assert SameAt(t, u, p);
      }
    }
    SameLookups(u, ComponentFiles(t));
  }

  lemma LegacyKeepsOthers(env: Env, os: System, t: Tree, input: Tree, temp: string, done: seq<Op>)
    requires IsStagingName(temp) && done <= LegacyScript(env, os, t, input, temp) && Executes(t, done)
    ensures SameOthers(t, After(t, done)) && SameUnder(t, After(t, done), RESTORE_MARKER)
  {
    StagingNamesDiffer();
    NamesDiffer();
    var script := LegacyScript(env, os, t, input, temp);
    LegacyTouches(env, os, t, input, temp, SYSTEM);
    LegacyTouches(env, os, t, input, temp, OBJECTS);
    LegacyTouches(env, os, t, input, temp, RESTORE_MARKER);
    assert forall op :: op in done ==> op in script;
    Frame(t, done, SYSTEM);
    Frame(t, done, OBJECTS);
    Frame(t, done, RESTORE_MARKER);
  }

  /**
   * The whole data directory, at every interruption of a version 1 restore: the
   * component files are as they were until the last step, which replaces those of
   * the metadata and no others; an unfinished restore's marker stays.
   */
  lemma LegacyAtOnce(env: Env, os: System, t: Tree, input: Tree, temp: string, done: seq<Op>)
    requires WellFormed(t) && IsStagingName(temp)
    requires done <= LegacyScript(env, os, t, input, temp) && Executes(t, done)
    ensures [RESTORE_MARKER] in After(t, done) <==> [RESTORE_MARKER] in t
    ensures ComponentFiles(After(t, done)) ==
            if done == LegacyScript(env, os, t, input, temp) then MetadataResult(env, t, input) else ComponentFiles(t)
  {
    StagingNamesDiffer();
    LegacyKeepsOthers(env, os, t, input, temp, done);
    assert SameAt(t, After(t, done), [RESTORE_MARKER]);
    if done == LegacyScript(env, os, t, input, temp) {
      LegacyRestored(env, os, t, input, temp, []);
      var files := LegacyFiles(env, input, LegacyManifestIn(env, input).value.files);
      forall q ensures FileAt(After(t, done), [METADATA] + q) == Lookup(files, q) {
        LegacyRestored(env, os, t, input, temp, q);
      }
      MetadataReplaced(t, After(t, done), files);
    } else {
      forall q ensures FileAt(After(t, done), [METADATA] + q) == FileAt(t, [METADATA] + q) {
        LegacyInterrupted(env, os, t, input, temp, done, q);
      }
      MetadataKept(t, After(t, done));
    }
  }

  // ---------------------------------------------------------------- the command

  /** What a failure over one listed file means. */
  ghost predicate ExplainsFile(env: Env, input: Tree, f: LegacyFile, failure: Failure) {
    match failure
    case Io => true
    case InvalidFilename => !ValidBackupFilename(f.name)
    case ChecksumMismatch(name) =>
      && name == f.name && IsFile(input, Split(f.name, '/'))
      && (Size(input[Split(f.name, '/')].data) != f.size || env.digest(input[Split(f.name, '/')].data) != f.sha256)
    case _ => false
  }

  /** What a failure of a metadata restore means; an I/O failure may come at any point. */
  ghost predicate Explains(env: Env, t: Tree, input: Tree, failure: Failure) {
    match failure
    case Io => true
    case DestinationNotEmpty => IsDir(t, [METADATA]) && !Childless(t, [METADATA])
    case InvalidManifest =>
      && IsFile(input, [LEGACY_MANIFEST])
      && (|input[[LEGACY_MANIFEST]].data| > 1048576 || env.decodeLegacy(input[[LEGACY_MANIFEST]].data).None?)
    case IncompatibleVersion =>
      && IsFile(input, [LEGACY_MANIFEST]) && env.decodeLegacy(input[[LEGACY_MANIFEST]].data).Some?
      && var legacy := env.decodeLegacy(input[[LEGACY_MANIFEST]].data).value;
        legacy.formatVersion != 1 || legacy.schemaVersion > 6
    case _ =>
      && LegacyManifestIn(env, input).Some?
      && exists f :: f in LegacyManifestIn(env, input).value.files && ExplainsFile(env, input, f, failure)
  }

  method CopyLegacyFile(env: Env, os: System, disk: Disk, input: Tree, f: LegacyFile, temp: string)
    returns (failed: Option<Failure>)
    requires disk.Valid()
    modifies disk
    ensures disk.Valid()
    ensures Ran(old(disk.log), disk.log, LegacyCopyOps(os, temp, LegacyCopy(env, input, f)), failed.None?)
    ensures failed.Some? ==> ExplainsFile(env, input, f, failed.value)
  {
    ghost var start, c := disk.log, LegacyCopy(env, input, f);
    if !ValidBackupFilename(f.name) {
      return Some(InvalidFilename);
    }
    var p := Split(f.name, '/');
    var read := if IsFile(input, p) then Some(input[p].data) else None;
    assert c.data == read;
    ghost var body := if read.None? then [Stop] else CopyBody(os, [temp, f.name], read.value);
    ghost var check := if read.None? then [] else Guard(c.accepted);
    assert LegacyCopyOps(os, temp, c) == body + check;
    var copied := CopyWithChecksum(os, env.digest, read, disk, [temp, f.name]);
    if copied.None? {
      RanShort(start, disk.log, body, check);
      return Some(Io);
    }
    if copied.value != (f.size, f.sha256) {
      RanThen(start, disk.log, disk.log, body, check, false);
      return Some(ChecksumMismatch(f.name));
    }
    RanThen(start, disk.log, disk.log, body, check, true);
    failed := None;
  }

  method StageLegacy(env: Env, os: System, disk: Disk, input: Tree, legacy: LegacyManifest, temp: string)
    returns (failed: Option<Failure>)
    requires disk.Valid()
    modifies disk
    ensures disk.Valid()
    ensures Ran(old(disk.log), disk.log, LegacyStageOps(env, os, input, legacy, temp), failed.None?)
    ensures failed.Some? ==>
              failed == Some(Io) || exists f :: f in legacy.files && ExplainsFile(env, input, f, failed.value)
  {
    ghost var start, ops, copies := disk.log, LegacyStageOps(env, os, input, legacy, temp),
        LegacyCopies(env, input, legacy.files);
    ghost var left := LegacyCopyAllOps(os, temp, copies);
    Begin(start, ops);
    var made := disk.Do(MakeDir([temp]));
    Onward(start, start, disk.log, ops, [MakeDir([temp])], left, made);
    if !made {
      return Some(Io);
    }
    var i := 0;
    assert copies[0..] == copies;
    while i < |legacy.files|
      invariant i <= |legacy.files| && disk.Valid() && Pending(start, disk.log, ops, left)
      invariant left == LegacyCopyAllOps(os, temp, copies[i..])
    {
      ghost var before, first := disk.log, LegacyCopyOps(os, temp, copies[i]);
      assert copies[i..][0] == copies[i] && copies[i..][1..] == copies[i + 1..];
      left := LegacyCopyAllOps(os, temp, copies[i + 1..]);
      failed := CopyLegacyFile(env, os, disk, input, legacy.files[i], temp);
      Onward(start, before, disk.log, ops, first, left, failed.None?);
      if failed.Some? {
        return;
      }
      i := i + 1;
    }
    assert copies[|copies|..] == [];
    Finish(start, disk.log, ops);
    failed := None;
  }

  method Swap(disk: Disk, temp: string) returns (ok: bool)
    requires disk.Valid()
    modifies disk
    ensures disk.Valid() && Ran(old(disk.log), disk.log, SwapOps(old(disk.tree), temp), ok)
  {
    ghost var start, move := disk.log, [Rename([temp], [METADATA])];
    if [METADATA] in disk.tree {
      ok := disk.Do(Unlink([METADATA]));
      if !ok {
        RanShort(start, disk.log, [Unlink([METADATA])], move);
        return;
      }
    }
    ghost var between := disk.log;
    ok := disk.Do(Rename([temp], [METADATA]));
    RanThen(start, between, disk.log, between[|start|..], move, ok);
  }

  method ReplaceMetadata(env: Env, os: System, disk: Disk, input: Tree, legacy: LegacyManifest, temp: string)
    returns (failed: Option<Failure>)
    requires disk.Valid()
    modifies disk
    ensures disk.Valid()
    ensures Ran(old(disk.log), disk.log, ReplaceOps(env, os, old(disk.tree), input, legacy, temp), failed.None?)
    ensures failed.Some? ==>
              failed == Some(Io) || exists f :: f in legacy.files && ExplainsFile(env, input, f, failed.value)
  {
    ghost var start, t, stage := disk.log, disk.tree, LegacyStageOps(env, os, input, legacy, temp);
    ghost var swap := SwapOps(After(t, stage), temp);
    Where(disk);
    failed := StageLegacy(env, os, disk, input, legacy, temp);
    if failed.Some? {
      RanShort(start, disk.log, stage, swap);
      return;
    }
    Where(disk);
    AfterConcat(disk.base, start, stage);
    ghost var between := disk.log;
    var swapped := Swap(disk, temp);
    RanThen(start, between, disk.log, stage, swap, swapped);
    failed := if swapped then None else Some(Io);
  }

  method RunLegacy(env: Env, os: System, disk: Disk, input: Tree, temp: string) returns (failed: Option<Failure>)
    requires disk.Valid()
    modifies disk
    ensures disk.Valid()
    ensures Ran(old(disk.log), disk.log, LegacyScript(env, os, old(disk.tree), input, temp), failed.None?)
    ensures failed.Some? ==> Explains(env, old(disk.tree), input, failed.value)
  {
    ghost var start, make, rest := disk.log, [MakeDirs([])],
        AfterOpening(env, os, Apply(disk.tree, MakeDirs([])), input, temp);
    var made := disk.Do(MakeDirs([]));
    if !made {
      RanShort(start, disk.log, make, rest);
      return Some(Io);
    }
    ghost var between := disk.log;
    RanThen(start, between, between, make, rest, false);
    if [METADATA] in disk.tree && disk.tree[[METADATA]].File? {
      return Some(Io);
    }
    if [METADATA] in disk.tree && !Childless(disk.tree, [METADATA]) {
      return Some(DestinationNotEmpty);
    }
    var legacy := LegacyManifestIn(env, input);
    if legacy.None? {
      return Some(LegacyRefusal(env, input));
    }
    failed := ReplaceMetadata(env, os, disk, input, legacy.value, temp);
    RanThen(start, between, disk.log, make, rest, failed.None?);
  }

  ghost predicate SameMetadata(t: Tree, u: Tree) {
    forall q :: FileAt(u, [METADATA] + q) == FileAt(t, [METADATA] + q)
  }

  /** The files below `metadata` are those a version 1 manifest names. */
  ghost predicate HoldsLegacy(env: Env, t: Tree, input: Tree, legacy: LegacyManifest) {
    forall q :: FileAt(t, [METADATA] + q) == Lookup(LegacyFiles(env, input, legacy.files), q)
  }

  /** `restore_metadata`: all of the manifest's files below `metadata`, or that component as it was. */
  method RestoreMetadata(env: Env, os: System, disk: Disk, input: Tree, temp: string) returns (failed: Option<Failure>)
    requires disk.Valid() && WellFormed(disk.tree) && temp != METADATA
    modifies disk
    ensures disk.Valid()
    ensures Stopped(old(disk.tree), disk.tree, LegacyScript(env, os, old(disk.tree), input, temp), failed.None?)
    ensures failed.Some? ==> Explains(env, old(disk.tree), input, failed.value)
    ensures failed.None? ==> LegacyManifestIn(env, input).Some?
    ensures || SameMetadata(old(disk.tree), disk.tree)
            || (LegacyManifestIn(env, input).Some?
                && HoldsLegacy(env, disk.tree, input, LegacyManifestIn(env, input).value))
    ensures failed.None? ==> HoldsLegacy(env, disk.tree, input, LegacyManifestIn(env, input).value)
  {
    ghost var before, t := disk.log, disk.tree;
    Where(disk);
    failed := RunLegacy(env, os, disk, input, temp);
    Where(disk);
    Replay(disk.base, before, disk.log, LegacyScript(env, os, t, input, temp), failed.None?);
    LegacyOutcome(env, os, t, disk.tree, input, temp, failed.None?);
  }

  lemma LegacyOutcome(env: Env, os: System, t: Tree, u: Tree, input: Tree, temp: string, ok: bool)
    requires WellFormed(t) && temp != METADATA && Stopped(t, u, LegacyScript(env, os, t, input, temp), ok)
    ensures ok ==> LegacyManifestIn(env, input).Some?
    ensures || SameMetadata(t, u)
            || (LegacyManifestIn(env, input).Some? && HoldsLegacy(env, u, input, LegacyManifestIn(env, input).value))
    ensures ok ==> HoldsLegacy(env, u, input, LegacyManifestIn(env, input).value)
  {
    var script := LegacyScript(env, os, t, input, temp);
    var done :| done <= script && Executes(t, done) && u == After(t, done) && (ok ==> done == script);
    if done == script {
      LegacyRestored(env, os, t, input, temp, []);
      forall q ensures FileAt(u, [METADATA] + q)
                       == Lookup(LegacyFiles(env, input, LegacyManifestIn(env, input).value.files), q)
      {
        LegacyRestored(env, os, t, input, temp, q);
      }
    } else {
      forall q ensures FileAt(u, [METADATA] + q) == FileAt(t, [METADATA] + q) {
        LegacyInterrupted(env, os, t, input, temp, done, q);
      }
    }
  }
}
