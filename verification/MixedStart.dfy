/** The check a server makes too early: a run that ends with a server on a mixture. */
module MixedStart {
  import opened Wrappers
  import opened Sequences
  import opened Filesystem
  import opened Layout
  import opened Copying
  import opened Manifests
  import opened Verification
  import opened Backups
  import opened BackupSafety
  import opened Restores
  import opened RestoreSafety
  import opened RestoreEffect
  import opened RestoreRuns
  import opened RestoreResumes
  import opened Deployment
  import opened DeploymentRuns
  import opened RunBuilding

  /** What a restore has done once the first component is in place. */
  function UpToMetadata(env: Env, os: System, t: Tree, source: Tree, m: Manifest, staging: string,
                        note: Bytes): seq<Op> {
    var front := EarlyOps(os, t, note) + StageOps(env, os, source, m, staging);
    front + InstallOne(os, After(t, front), staging, METADATA)
  }

  lemma StagedState(env: Env, os: System, t: Tree, source: Tree, m: Manifest, staging: string, note: Bytes)
    ensures After(t, EarlyOps(os, t, note) + StageOps(env, os, source, m, staging)) ==
            After(Apply(After(t, OpeningOps(os, t)), Truncate([RESTORE_MARKER])),
                  Appends(os, [RESTORE_MARKER], note, 0) + StageOps(env, os, source, m, staging))
  {
    var opening, create, append := OpeningOps(os, t), [Truncate([RESTORE_MARKER])],
        Appends(os, [RESTORE_MARKER], note, 0);
    var stage, v := StageOps(env, os, source, m, staging), After(t, opening);
    AfterConcat(t, opening + (create + append), stage);
    AfterConcat(t, opening, create + append);
    AfterConcat(v, create, append);
    AfterOne(v, Truncate([RESTORE_MARKER]));
    AfterConcat(Apply(v, Truncate([RESTORE_MARKER])), append, stage);
  }

  lemma PrefixOfSum<T>(a: seq<T>, b: seq<T>, c: seq<T>, d: seq<T>)
    ensures (a + b) + c <= a + (b + (c + d))
  {
  }

  lemma PartOfRestore(env: Env, os: System, t: Tree, source: Tree, m: Manifest, staging: string, note: Bytes)
    ensures UpToMetadata(env, os, t, source, m, staging, note) < RestoreScript(env, os, t, source, m, staging, note)
  {
    var opening, create := OpeningOps(os, t), [Truncate([RESTORE_MARKER])];
    var v := Apply(After(t, opening), Truncate([RESTORE_MARKER]));
    var append, stage := Appends(os, [RESTORE_MARKER], note, 0), StageOps(env, os, source, m, staging);
    var u := After(v, append + stage);
    var install := InstallOps(os, u, staging, COMPONENTS);
    var remove, unmark := RemoveOps(os, After(u, install), [staging]), [Unlink([RESTORE_MARKER])];
    SevenParts(opening, create, append, stage, install, remove, unmark);
    StagedState(env, os, t, source, m, staging, note);
    var first := InstallOne(os, u, staging, METADATA);
    var others := InstallOps(os, After(u, first), staging, COMPONENTS[1..]);
    assert install == first + others;
    Regroup(first, others, remove + unmark);
    PrefixOfSum(EarlyOps(os, t, note), stage, first, others + (remove + unmark));
  }

  lemma FrontTouches(env: Env, os: System, t: Tree, source: Tree, m: Manifest, staging: string, note: Bytes,
                     name: string)
    requires [RESTORE_MARKER] !in t && name != staging && name != RESTORE_MARKER
    ensures NoneTouch(EarlyOps(os, t, note), name) && NoneTouch(StageOps(env, os, source, m, staging), name)
  {
    MakeRootKeeps(t);
    AppendsTouch(os, [RESTORE_MARKER], note, 0, name);
    StageTouches(env, os, source, m, staging, name);
  }

  /** Staging keeps out of the components. */
  lemma StagedElsewhere(env: Env, os: System, t: Tree, source: Tree, m: Manifest, staging: string, note: Bytes, q: Path)
    requires Lawful(os) && [RESTORE_MARKER] !in t && IsStagingName(staging) && InComponent(q)
    requires Executes(t, EarlyOps(os, t, note) + StageOps(env, os, source, m, staging))
    ensures FileAt(After(t, EarlyOps(os, t, note) + StageOps(env, os, source, m, staging)), q) == FileAt(t, q)
  {
    StagingNamesDiffer();
    NamesDiffer();
    FrontTouches(env, os, t, source, m, staging, note, q[0]);
    Frame(t, EarlyOps(os, t, note) + StageOps(env, os, source, m, staging), q[0]);
    assert SameAt(t, After(t, EarlyOps(os, t, note) + StageOps(env, os, source, m, staging)), q);
  }

  lemma StagedFiles(env: Env, os: System, t: Tree, source: Tree, m: Manifest, staging: string, note: Bytes, q: Path)
    requires Lawful(os) && WellFormed(t) && Executes(t, EarlyOps(os, t, note) + StageOps(env, os, source, m, staging))
    ensures FileAt(After(t, EarlyOps(os, t, note) + StageOps(env, os, source, m, staging)), [staging] + q)
            == Lookup(Restored(env, source, m), q)
  {
    var opening, create, append := OpeningOps(os, t), [Truncate([RESTORE_MARKER])],
        Appends(os, [RESTORE_MARKER], note, 0);
    var stage, v := StageOps(env, os, source, m, staging), After(t, opening);
    AfterConcat(t, opening + (create + append), stage);
    AfterConcat(t, opening, create + append);
    AfterConcat(v, create, append);
    AfterOne(v, Truncate([RESTORE_MARKER]));
    AfterConcat(Apply(v, Truncate([RESTORE_MARKER])), append, stage);
    AfterWellFormed(t, opening);
    ApplyWellFormed(v, Truncate([RESTORE_MARKER]));
    MarkAndStage(env, os, Apply(v, Truncate([RESTORE_MARKER])), source, m, staging, note, q);
  }

  /** Cut off there, the metadata is the backup's and the other components are empty. */
  lemma PartlyInstalled(env: Env, os: System, t: Tree, source: Tree, m: Manifest, staging: string, note: Bytes, q: Path)
    requires Lawful(os) && WellFormed(t) && [RESTORE_MARKER] !in t && ComponentsEmpty(t)
    requires IsStagingName(staging) && InComponent(q)
    requires Executes(t, UpToMetadata(env, os, t, source, m, staging, note))
    ensures FileAt(After(t, UpToMetadata(env, os, t, source, m, staging, note)), q) ==
            if q[0] == METADATA then Lookup(Restored(env, source, m), q) else None
  {
    StagingNamesDiffer();
    var front := EarlyOps(os, t, note) + StageOps(env, os, source, m, staging);
    var u := After(t, front);
    AfterConcat(t, front, InstallOne(os, u, staging, METADATA));
    AfterWellFormed(t, front);
    InstallOneEffect(os, u, staging, METADATA, q);
    StagedFiles(env, os, t, source, m, staging, note, q);
    StagedElsewhere(env, os, t, source, m, staging, note, q);
    EmptyHasNoFiles(t);
    assert [METADATA] <= q <==> q[0] == METADATA;
  }

  /** The part of a restore's files that lies below one component. */
  function Below(files: Snapshot, component: string): Snapshot {
    map p | p in files && p != [] && p[0] == component :: files[p]
  }

  lemma MixtureLeft(env: Env, os: System, t: Tree, source: Tree, m: Manifest, staging: string, note: Bytes)
    requires Lawful(os) && Ready(t, staging) && [RESTORE_MARKER] !in t
    requires Restorable(env, source, m) && Unclashing(RestoreCopies(env, source, m, m.files))
    ensures var script, done := RestoreScript(env, os, t, source, m, staging, note),
                UpToMetadata(env, os, t, source, m, staging, note);
            && done < script && Executes(t, done)
            && ComponentFiles(After(t, done)) == Below(Restored(env, source, m), METADATA)
  {
    var script, done := RestoreScript(env, os, t, source, m, staging, note),
        UpToMetadata(env, os, t, source, m, staging, note);
    PartOfRestore(env, os, t, source, m, staging, note);
    RestoreGoesThrough(env, os, t, source, m, staging, note);
    ExecutesPrefix(t, done, script);
    var files := Below(Restored(env, source, m), METADATA);
    forall q | InComponent(q) ensures FileAt(After(t, done), q) == Lookup(files, q) {
      PartlyInstalled(env, os, t, source, m, staging, note, q);
    }
    SameLookups(After(t, done), files);
  }

  lemma MixtureIsMarked(env: Env, os: System, t: Tree, source: Tree, m: Manifest, staging: string, note: Bytes,
                        done: seq<Op>, p: Path)
    requires Lawful(os) && Ready(t, staging) && [RESTORE_MARKER] !in t
    requires done < RestoreScript(env, os, t, source, m, staging, note) && Executes(t, done)
    requires p in ComponentFiles(After(t, done))
    ensures Marked(After(t, done)) && ComponentFiles(t) == map[]
  {
    EmptyHasNoFiles(t);
    MakeRootKeepsFiles(t);
    RestoreInterrupted(env, os, t, source, m, staging, note, done);
  }

  /** A server passes its checks, and then a restore starts. */
  lemma CheckedThenStarted(env: Env, os: System, settings: Settings, level: Level, t: Tree, source: Tree, m: Manifest,
                           staging: string, note: Bytes)
    returns (ws: seq<World>, events: seq<Event>)
    requires Lawful(os) && WellFormed(t) && !Marked(t) && IsStagingName(staging)
    requires RestoreAdmitted(env, source, level, settings) && ReadManifest(env, source) == Ok(m)
    ensures IsRun(env, ws, events) && ws[0].data == t
    ensures Last(ws) == World(t, map[], Restoring(t, RestoreScript(env, os, t, source, m, staging, note), 0,
                                                  Restored(env, source, m)), {0}, map[], ComponentFiles(t))
  {
    ws, events := Begin(env, t);
    ws, events := Extend(env, ws, events, ServerCheck(0));
    assert Last(ws) == World(t, map[], Nobody, {0}, map[], ComponentFiles(t));
    ws, events := Extend(env, ws, events, RestoreStart(os, settings, level, source, staging, note));
  }

  /** The restore goes on up to some point and dies. */
  lemma CheckedThenAbandoned(env: Env, os: System, settings: Settings, level: Level, t: Tree, source: Tree, m: Manifest,
                             staging: string, note: Bytes, done: seq<Op>)
    returns (ws: seq<World>, events: seq<Event>)
    requires Lawful(os) && WellFormed(t) && !Marked(t) && IsStagingName(staging)
    requires RestoreAdmitted(env, source, level, settings) && ReadManifest(env, source) == Ok(m)
    requires done < RestoreScript(env, os, t, source, m, staging, note) && Executes(t, done)
    ensures IsRun(env, ws, events) && ws[0].data == t
    ensures Last(ws) == World(After(t, done), map[], Nobody, {0}, map[], ComponentFiles(t))
  {
    var script := RestoreScript(env, os, t, source, m, staging, note);
    assert script[..|done|] == done;
    ws, events := CheckedThenStarted(env, os, settings, level, t, source, m, staging, note);
    ws, events := RestoreOn(env, ws, events, Last(ws), t, script, Restored(env, source, m), |done|);
    AfterWellFormed(t, done);
    ws, events := Extend(env, ws, events, Release);
  }

  /**
   * For every backup that checks out, with files in the metadata and elsewhere,
   * and every data directory without components there is a run in which a server
   * passes its checks, a restore of that backup starts and dies with the metadata
   * in place and nothing else, and the server then takes the lock: it stands on
   * files that are neither what was there nor what the backup holds.
   */
  lemma ServerOnAMixture(env: Env, os: System, settings: Settings, level: Level, t: Tree, source: Tree, m: Manifest,
                         staging: string, note: Bytes, p: Path, q: Path)
    returns (ws: seq<World>, events: seq<Event>)
    requires Lawful(os) && Ready(t, staging) && !Marked(t)
    requires RestoreAdmitted(env, source, level, settings) && ReadManifest(env, source) == Ok(m)
    requires Restorable(env, source, m) && Unclashing(RestoreCopies(env, source, m, m.files))
    requires p in Restored(env, source, m) && p != [] && p[0] == METADATA
    requires q in Restored(env, source, m) && q != [] && q[0] != METADATA
    ensures IsRun(env, ws, events) && ws[0].data == t && Last(ws).holder.Server? && Marked(Last(ws).data)
    ensures var files := ComponentFiles(Last(ws).data);
            && files == Below(Restored(env, source, m), METADATA)
            && files != Last(ws).whole && files != Restored(env, source, m)
  {
    var done := UpToMetadata(env, os, t, source, m, staging, note);
    MixtureLeft(env, os, t, source, m, staging, note);
    var files := Below(Restored(env, source, m), METADATA);
    assert p in files && q !in files;
    MixtureIsMarked(env, os, t, source, m, staging, note, done, p);
    AfterWellFormed(t, done);
    ws, events := CheckedThenAbandoned(env, os, settings, level, t, source, m, staging, note, done);
    ws, events := Extend(env, ws, events, ServerLock(0));
  }
}
