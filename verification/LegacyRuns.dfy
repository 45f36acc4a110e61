/** Exactly when a metadata restore runs to its end, and what it then leaves. */
module LegacyRuns {
  import opened Wrappers
  import opened Text
  import opened Filesystem
  import opened Layout
  import opened Copying
  import opened Manifests
  import opened Restores
  import opened RestoreEffect
  import opened LegacyRestore

  // ------------------------------------------------------------ accepted names

  /** At most 128 letters, digits, hyphens, underscores and dots, the last five of them `.redb`. */
  ghost predicate AcceptedName(name: string) {
    && |name| <= 128 && (exists stem :: name == stem + ".redb")
    && forall i :: 0 <= i < |name| ==>
         'a' <= name[i] <= 'z' || 'A' <= name[i] <= 'Z' || '0' <= name[i] <= '9' || name[i] in "-_."
  }

  lemma {:induction false} AsciiLength(s: string)
    requires forall c :: c in s ==> c as int < 128
    ensures ByteLength(s) == |s|
  {
    if s != "" {
      assert s[0] in s && forall c :: c in s[1..] ==> c in s;
      AsciiLength(s[1..]);
    }
  }

  lemma PlainChars(name: string)
    ensures (forall c :: c in name ==> PlainChar(c)) <==>
            forall i :: 0 <= i < |name| ==>
              'a' <= name[i] <= 'z' || 'A' <= name[i] <= 'Z' || '0' <= name[i] <= '9' || name[i] in "-_."
  {
    forall i | 0 <= i < |name|
      ensures name[i] in name
      ensures PlainChar(name[i]) <==>
              'a' <= name[i] <= 'z' || 'A' <= name[i] <= 'Z' || '0' <= name[i] <= '9' || name[i] in "-_."
    {
    }
  }

  /** The names a metadata restore takes. */
  lemma FilenameExactly(name: string)
    ensures ValidBackupFilename(name) <==> AcceptedName(name)
  {
    PlainChars(name);
    if forall c :: c in name ==> PlainChar(c) {
      AsciiLength(name);
    }
    if EndsWith(name, ".redb") {
      assert name == name[..|name| - 5] + ".redb";
    }
    if stem :| name == stem + ".redb" {
      assert name[|name| - 5..] == ".redb";
    }
  }

  // ------------------------------------------------------------------ it runs

  /** A listed file that is there, under an accepted name, with the size and digest listed. */
  ghost predicate Sound(env: Env, input: Tree, f: LegacyFile) {
    && AcceptedName(f.name) && IsFile(input, [f.name])
    && Size(input[[f.name]].data) == f.size && env.digest(input[[f.name]].data) == f.sha256
  }

  lemma SoundIsAdmissible(env: Env, input: Tree, f: LegacyFile)
    ensures Admissible(LegacyCopy(env, input, f)) <==> Sound(env, input, f)
    ensures Sound(env, input, f) ==> LegacyCopy(env, input, f).data == Some(input[[f.name]].data)
  {
    FilenameExactly(f.name);
    if ValidBackupFilename(f.name) {
      FilenameIsPlain(f.name);
      OnePart(f.name);
    }
  }

  lemma AllAdmissible(env: Env, input: Tree, files: seq<LegacyFile>)
    ensures (forall c :: c in LegacyCopies(env, input, files) ==> Admissible(c)) <==>
            forall f :: f in files ==> Sound(env, input, f)
    ensures DistinctPaths(LegacyCopies(env, input, files)) <==> DistinctNames(files)
  {
    var copies := LegacyCopies(env, input, files);
    forall i | 0 <= i < |files|
      ensures copies[i] in copies && files[i] in files && copies[i].path == files[i].name
      ensures Admissible(copies[i]) <==> Sound(env, input, files[i])
    {
      SoundIsAdmissible(env, input, files[i]);
    }
  }

  lemma {:induction false} RanMeansDistinct(os: System, t: Tree, temp: string, copies: seq<Copy>)
    requires Executes(t, LegacyCopyAllOps(os, temp, copies))
    ensures forall c :: c in copies ==> Admissible(c) && [temp, c.path] !in t
    ensures DistinctPaths(copies)
    decreases |copies|
  {
    if copies != [] {
      var c, rest := copies[0], copies[1..];
      AfterConcat(t, LegacyCopyOps(os, temp, c), LegacyCopyAllOps(os, temp, rest));
      LegacyCopyEffect(os, t, temp, c);
      RanMeansDistinct(os, After(t, LegacyCopyOps(os, temp, c)), temp, rest);
      assert forall d :: d in copies ==> d == c || d in rest;
      FirstIsDistinct(copies);
    }
  }

  lemma FirstIsDistinct(copies: seq<Copy>)
    requires copies != [] && DistinctPaths(copies[1..]) && forall d :: d in copies[1..] ==> d.path != copies[0].path
    ensures DistinctPaths(copies)
  {
    forall i, j | 0 <= i < j < |copies| ensures copies[i].path != copies[j].path {
      assert copies[j] == copies[1..][j - 1] && copies[j] in copies[1..];
      if i > 0 {
        assert copies[i] == copies[1..][i - 1];
      }
    }
  }

  lemma LegacyCopyRuns(os: System, t: Tree, temp: string, c: Copy)
    requires Admissible(c) && IsDir(t, [temp]) && ValidName(temp) && [temp, c.path] !in t
    ensures Executes(t, LegacyCopyOps(os, temp, c))
    ensures After(t, LegacyCopyOps(os, temp, c)) == t[[temp, c.path] := File(c.data.value)]
  {
    FilenameIsPlain(c.path);
    assert Parent([temp, c.path]) == [temp] && ValidPath([temp, c.path]);
    CopyBodyEffect(os, t, [temp, c.path], c.data.value);
    assert LegacyCopyOps(os, temp, c) == CopyBody(os, [temp, c.path], c.data.value);
  }

  lemma {:induction false} LegacyCopiesRun(os: System, t: Tree, temp: string, copies: seq<Copy>)
    requires IsDir(t, [temp]) && ValidName(temp) && DistinctPaths(copies)
    requires forall c :: c in copies ==> Admissible(c) && [temp, c.path] !in t
    ensures Executes(t, LegacyCopyAllOps(os, temp, copies))
    ensures IsDir(After(t, LegacyCopyAllOps(os, temp, copies)), [temp])
    decreases |copies|
  {
    if copies != [] {
      var c, rest := copies[0], copies[1..];
      LegacyCopyRuns(os, t, temp, c);
      AfterConcat(t, LegacyCopyOps(os, temp, c), LegacyCopyAllOps(os, temp, rest));
      forall d | d in rest ensures d in copies && d.path != c.path {
        var i :| 0 <= i < |rest| && rest[i] == d;
        assert copies[i + 1] == d;
      }
      assert DistinctPaths(rest) by {
        assert forall i :: 0 <= i < |rest| ==> rest[i] == copies[i + 1];
      }
      LegacyCopiesRun(os, t[[temp, c.path] := File(c.data.value)], temp, rest);
    }
  }

  lemma StageRunsExactly(env: Env, os: System, t: Tree, input: Tree, legacy: LegacyManifest, temp: string)
    requires WellFormed(t) && IsDir(t, [])
    ensures Executes(t, LegacyStageOps(env, os, input, legacy, temp)) <==>
            && ValidName(temp) && [temp] !in t
            && (forall f :: f in legacy.files ==> Sound(env, input, f)) && DistinctNames(legacy.files)
    ensures Executes(t, LegacyStageOps(env, os, input, legacy, temp)) ==>
              IsDir(After(t, LegacyStageOps(env, os, input, legacy, temp)), [temp])
  {
    var copies, u := LegacyCopies(env, input, legacy.files), Apply(t, MakeDir([temp]));
    AfterConcat(t, [MakeDir([temp])], LegacyCopyAllOps(os, temp, copies));
    AfterOne(t, MakeDir([temp]));
    AllAdmissible(env, input, legacy.files);
    assert Parent([temp]) == [] && (ValidPath([temp]) <==> ValidName(temp)) by {
      assert temp in [temp];
    }
    if Executes(u, LegacyCopyAllOps(os, temp, copies)) {
      RanMeansDistinct(os, u, temp, copies);
    }
    if ValidName(temp) && [temp] !in t && (forall c :: c in copies ==> Admissible(c)) && DistinctPaths(copies) {
      NothingBelow(t, temp);
      LegacyCopiesRun(os, u, temp, copies);
    }
  }

  lemma NothingBelow(t: Tree, temp: string)
    requires WellFormed(t) && [temp] !in t
    ensures forall name :: [temp, name] !in Apply(t, MakeDir([temp]))
  {
    VacantBelow(t, [temp]);
    forall name ensures [temp, name] !in Apply(t, MakeDir([temp])) {
      assert [temp] <= [temp, name];
    }
  }

  /** The staged directory takes the place of an empty one. */
  lemma SwapRuns(t: Tree, temp: string)
    requires WellFormed(t) && EmptyOrAbsent(t, [METADATA]) && IsDir(t, [temp]) && temp != METADATA && IsDir(t, [])
    ensures Executes(t, SwapOps(t, temp))
  {
    var remove := if [METADATA] in t then [Unlink([METADATA])] else [];
    var u := After(t, remove);
    AfterSnoc(t, remove, Rename([temp], [METADATA]));
    AfterOne(t, Unlink([METADATA]));
    assert Vacant(u, [METADATA]) by {
      if [METADATA] !in t {
        VacantBelow(t, [METADATA]);
      }
    }
    ComponentNamesArePlain();
    assert [temp][0] == temp && [METADATA][0] == METADATA;
    assert Parent([METADATA]) == [] && ValidPath([METADATA]) && !([temp] <= [METADATA]);
    assert [] in u && [temp] in u;
  }

  lemma StageLeavesMetadata(env: Env, os: System, t: Tree, input: Tree, legacy: LegacyManifest, temp: string)
    requires WellFormed(t) && EmptyOrAbsent(t, [METADATA]) && temp != METADATA && IsDir(t, [])
    requires Executes(t, LegacyStageOps(env, os, input, legacy, temp))
    ensures var u := After(t, LegacyStageOps(env, os, input, legacy, temp));
            WellFormed(u) && EmptyOrAbsent(u, [METADATA]) && IsDir(u, [])
  {
    var stage := LegacyStageOps(env, os, input, legacy, temp);
    var u := After(t, stage);
    AfterWellFormed(t, stage);
    LegacyCopiesTouch(os, temp, LegacyCopies(env, input, legacy.files), METADATA);
    assert NoneTouch(stage, METADATA);
    Frame(t, stage, METADATA);
    StageRunsExactly(env, os, t, input, legacy, temp);
    assert [temp] in u && Parent([temp]) == [];
    assert SameAt(t, u, [METADATA]);
    forall q | q in u && [METADATA] <= q ensures q in t {
      assert SameAt(t, u, q);
    }
  }

  lemma ReplaceRunsExactly(env: Env, os: System, t: Tree, input: Tree, legacy: LegacyManifest, temp: string)
    requires WellFormed(t) && EmptyOrAbsent(t, [METADATA]) && temp != METADATA && IsDir(t, [])
    ensures Executes(t, ReplaceOps(env, os, t, input, legacy, temp)) <==>
            && ValidName(temp) && [temp] !in t
            && (forall f :: f in legacy.files ==> Sound(env, input, f)) && DistinctNames(legacy.files)
  {
    var stage := LegacyStageOps(env, os, input, legacy, temp);
    AfterConcat(t, stage, SwapOps(After(t, stage), temp));
    StageRunsExactly(env, os, t, input, legacy, temp);
    if Executes(t, stage) {
      StageLeavesMetadata(env, os, t, input, legacy, temp);
      SwapRuns(After(t, stage), temp);
    }
  }

  /** A version 1 manifest that is small enough, readable and of a version this release takes. */
  ghost predicate ReadsLegacy(env: Env, input: Tree, legacy: LegacyManifest) {
    && IsFile(input, ["manifest.json"]) && |input[["manifest.json"]].data| <= 1048576
    && env.decodeLegacy(input[["manifest.json"]].data) == Some(legacy)
    && legacy.formatVersion == 1 && legacy.schemaVersion <= 6
  }

  lemma ReadsLegacyExactly(env: Env, input: Tree, legacy: LegacyManifest)
    ensures LegacyManifestIn(env, input) == Some(legacy) <==> ReadsLegacy(env, input, legacy)
  {
  }

  /**
   * With nothing failing underneath, `restore_metadata` reaches its end exactly
   * when the data directory is absent or has no metadata, the name for its
   * staging directory is free, the manifest is one it takes, and the listed
   * files are sound and have different names.
   */
  lemma LegacyRunsExactly(env: Env, os: System, t: Tree, input: Tree, temp: string)
    requires WellFormed(t) && temp != METADATA
    ensures Executes(t, LegacyScript(env, os, t, input, temp)) <==>
            && !IsFile(t, []) && EmptyOrAbsent(t, [METADATA]) && ValidName(temp) && [temp] !in t
            && exists legacy :: && ReadsLegacy(env, input, legacy)
                                && (forall f :: f in legacy.files ==> Sound(env, input, f))
                                && DistinctNames(legacy.files)
  {
    var u := Apply(t, MakeDirs([]));
    AfterConcat(t, [MakeDirs([])], AfterOpening(env, os, u, input, temp));
    AfterOne(t, MakeDirs([]));
    RootOnly(t);
    forall legacy ensures LegacyManifestIn(env, input) == Some(legacy) <==> ReadsLegacy(env, input, legacy) {
      ReadsLegacyExactly(env, input, legacy);
    }
    if !IsFile(t, []) {
      AfterWellFormed(t, [MakeDirs([])]);
      if EmptyOrAbsent(u, [METADATA]) && LegacyManifestIn(env, input).Some? {
        ReplaceRunsExactly(env, os, u, input, LegacyManifestIn(env, input).value, temp);
      }
    }
  }

  /** Making the data directory changes nothing in it. */
  lemma RootOnly(t: Tree)
    ensures Enabled(t, MakeDirs([])) <==> !IsFile(t, [])
    ensures var u := Apply(t, MakeDirs([]));
            && (EmptyOrAbsent(u, [METADATA]) <==> EmptyOrAbsent(t, [METADATA])) && [] in u
            && (!IsFile(t, []) ==> IsDir(u, [])) && forall q: Path :: q != [] ==> (q in u <==> q in t)
  {
    var u := Apply(t, MakeDirs([]));
    assert forall q: Path :: q != [] ==> (q in u <==> q in t) && (q in t ==> u[q] == t[q]);
  }

  /**
   * Where there is metadata already, or no manifest it takes, nothing is done
   * but making the data directory.
   */
  lemma LegacyRefusesFirst(env: Env, os: System, t: Tree, input: Tree, temp: string, done: seq<Op>)
    requires !EmptyOrAbsent(t, [METADATA]) || forall legacy :: !ReadsLegacy(env, input, legacy)
    requires done <= LegacyScript(env, os, t, input, temp) && Executes(t, done)
    ensures done == [] || done == [MakeDirs([])]
  {
    var u := Apply(t, MakeDirs([]));
    RootOnly(t);
    if LegacyManifestIn(env, input).Some? {
      ReadsLegacyExactly(env, input, LegacyManifestIn(env, input).value);
    }
    assert AfterOpening(env, os, u, input, temp) == [Stop];
    if |done| >= 2 {
      ExecutesPrefix(t, [MakeDirs([]), Stop], done);
      AfterSnoc(t, [MakeDirs([])], Stop);
    }
  }

  // ------------------------------------------------------------- what it leaves

  lemma StagedFirst(copies: seq<Copy>, q: Path)
    requires copies != []
    ensures var rest := Lookup(Staged(copies[1..]), q);
            Lookup(Staged(copies), q) ==
            if rest.Some? then rest else if q == [copies[0].path] then copies[0].data else None
  {
  }

  lemma {:induction false} StagedAt(env: Env, input: Tree, files: seq<LegacyFile>, q: Path)
    requires forall f :: f in files ==> Sound(env, input, f)
    ensures Lookup(Staged(LegacyCopies(env, input, files)), q) ==
            if |q| == 1 && ListsName(files, q[0]) then FileAt(input, q) else None
    decreases |files|
  {
    var copies := LegacyCopies(env, input, files);
    if files == [] {
      assert copies == [];
    } else {
      assert files[0] in files && forall g :: g in files[1..] ==> g in files;
      StagedAt(env, input, files[1..], q);
      assert copies[1..] == LegacyCopies(env, input, files[1..]);
      StagedFirst(copies, q);
      SoundIsAdmissible(env, input, files[0]);
      if |q| == 1 {
        assert q == [q[0]];
        FirstName(files, q[0]);
      }
    }
  }

  lemma FirstName(files: seq<LegacyFile>, name: string)
    requires files != []
    ensures ListsName(files, name) <==> files[0].name == name || ListsName(files[1..], name)
  {
    assert forall f :: f in files <==> f == files[0] || f in files[1..];
  }

  /** Below `metadata` are the listed files, each as the version 1 directory has it, and nothing else. */
  lemma LegacyLeaves(env: Env, os: System, t: Tree, input: Tree, temp: string, legacy: LegacyManifest, q: Path)
    requires WellFormed(t) && temp != METADATA && Executes(t, LegacyScript(env, os, t, input, temp))
    requires ReadsLegacy(env, input, legacy)
    ensures FileAt(After(t, LegacyScript(env, os, t, input, temp)), ["metadata"] + q) ==
            if |q| == 1 && ListsName(legacy.files, q[0]) then FileAt(input, q) else None
  {
    ReadsLegacyExactly(env, input, legacy);
    LegacyRunsExactly(env, os, t, input, temp);
    LegacyRestored(env, os, t, input, temp, q);
    var read :| ReadsLegacy(env, input, read) && (forall f :: f in read.files ==> Sound(env, input, f))
                && DistinctNames(read.files);
    assert read == legacy;
    StagedAt(env, input, legacy.files, q);
  }
}
