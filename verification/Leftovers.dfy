/** A staging directory that no restore clears: what a metadata restore leaves when it dies. */
module Leftovers {
  import opened Filesystem
  import opened Layout
  import opened Manifests
  import opened Restores
  import opened RestoreEffect
  import opened RestoreRuns
  import opened RestoreRetries
  import opened LegacyRestore

  /** A metadata restore that dies once it has made its staging directory. */
  lemma DiesAfterStaging(env: Env, os: System, t: Tree, input: Tree, temp: string)
    requires WellFormed(t) && !IsFile(t, []) && EmptyOrAbsent(t, [METADATA]) && LegacyManifestIn(env, input).Some?
    requires ValidName(temp) && [temp] !in t
    ensures var script := LegacyScript(env, os, t, input, temp);
            && |script| > 2 && Executes(t, script[..2])
            && After(t, script[..2]) == Apply(t, MakeDirs([]))[[temp] := Dir]
  {
    var u := Apply(t, MakeDirs([]));
    assert forall q: Path :: q != [] ==> (q in u <==> q in t) && (q in t ==> u[q] == t[q]);
    assert EmptyOrAbsent(u, [METADATA]);
    var script := LegacyScript(env, os, t, input, temp);
    assert script[0] == MakeDirs([]) && script[1] == MakeDir([temp]);
    assert script[..2] == [MakeDirs([]), MakeDir([temp])] == [MakeDirs([])] + [MakeDir([temp])];
    AfterSnoc(t, [MakeDirs([])], MakeDir([temp]));
    AfterOne(t, MakeDirs([]));
    assert ValidPath([temp]) && Parent([temp]) == [];
  }

  lemma StillReady(t: Tree, temp: string, staging: string)
    requires Ready(t, staging) && [RESTORE_MARKER] !in t && IsStagingName(temp) && temp != staging
    requires [temp] !in t && ValidName(temp)
    ensures Ready(Apply(t, MakeDirs([]))[[temp] := Dir], staging)
    ensures [RESTORE_MARKER] !in Apply(t, MakeDirs([]))[[temp] := Dir]
  {
    StagingNamesDiffer();
    MakeRootKeeps(t);
    var u := Apply(t, MakeDirs([]));
    assert Enabled(t, MakeDirs([]));
    ApplyWellFormed(t, MakeDirs([]));
    assert ValidPath([temp]) && Parent([temp]) == [];
    EntryWellFormed(u, [temp], Dir);
    var v := u[[temp] := Dir];
    forall c | c in COMPONENTS ensures EmptyOrAbsent(v, [c]) {
      assert EmptyOrAbsent(u, [c]);
      assert c != temp && [c][0] == c && [temp][0] == temp;
    }
  }

  /**
   * A metadata restore dies with its staging directory in place and, as it makes
   * no marker, none to clear it by.  A restore that then runs to its end leaves
   * that directory behind: the failing case of `NoStagingExactly`.
   */
  lemma LeftoverSurvives(env: Env, os: System, t: Tree, input: Tree, temp: string, last: Attempt)
    requires Lawful(last.os) && Ready(t, last.staging) && [RESTORE_MARKER] !in t && LegacyManifestIn(env, input).Some?
    requires IsStagingName(temp) && ValidName(temp) && temp != last.staging && [temp] !in t
    requires Restorable(env, last.source, last.manifest)
    requires Unclashing(RestoreCopies(env, last.source, last.manifest, last.manifest.files))
    ensures var script := LegacyScript(env, os, t, input, temp);
            && |script| > 2 && Executes(t, script[..2])
            && var u := After(t, script[..2]);
              && Executes(u, ScriptOf(env, u, last))
              && ComponentFiles(After(u, ScriptOf(env, u, last))) == Restored(env, last.source, last.manifest)
              && [temp] in After(u, ScriptOf(env, u, last)) && !NoStaging(After(u, ScriptOf(env, u, last)))
  {
    DiesAfterStaging(env, os, t, input, temp);
    StillReady(t, temp, last.staging);
    var u := Apply(t, MakeDirs([]))[[temp] := Dir];
    RestoreGoesThrough(env, last.os, u, last.source, last.manifest, last.staging, last.note);
    UnmarkedStagingSurvives(env, u, last, [temp]);
    assert [temp][0] == temp;
  }
}
