/** Whole runs: what holds at every moment of every interleaving the lock admits. */
module DeploymentRuns {
  import opened Wrappers
  import opened Filesystem
  import opened Layout
  import opened Manifests
  import opened Verification
  import opened Backups
  import opened BackupContents
  import opened Filing
  import opened BackupSafety
  import opened Deployment

  /** A data directory nobody is using, and destinations without any manifest yet. */
  ghost predicate Initial(w: World) {
    && WellFormed(w.data) && w.holder.Nobody? && w.checked == {} && w.taken == map[]
    && NoMixture(w.data, w.whole)
    && forall d :: d in w.dests ==>
         WellFormed(w.dests[d]) && [MANIFEST] !in w.dests[d] && [LEGACY_MANIFEST] !in w.dests[d]
  }

  ghost predicate Follows(env: Env, w: World, e: Event, next: World) {
    WellFormed(w.data) && Allowed(env, w, e) && next == Step(env, w, e)
  }

  ghost predicate StepAt(env: Env, ws: seq<World>, events: seq<Event>, i: nat) {
    i < |events| && i + 1 < |ws| && Follows(env, ws[i], events[i], ws[i + 1])
  }

  /** A run: the worlds it passes through and the events between them. */
  ghost predicate IsRun(env: Env, ws: seq<World>, events: seq<Event>) {
    && |ws| == |events| + 1 && Initial(ws[0])
    && forall i: nat :: i < |events| ==> StepAt(env, ws, events, i)
  }

  lemma InitialIsSound(env: Env, w: World)
    requires Initial(w)
    ensures Sound(env, w)
  {
  }

  lemma FollowsKeepsSound(env: Env, w: World, e: Event, next: World)
    requires Honest(env) && Sound(env, w) && Follows(env, w, e, next)
    ensures Sound(env, next)
  {
    StepKeepsSound(env, w, e);
  }

  lemma StepOfRun(env: Env, ws: seq<World>, events: seq<Event>, i: nat)
    requires IsRun(env, ws, events) && i < |events|
    ensures |ws| == |events| + 1 && Follows(env, ws[i], events[i], ws[i + 1])
  {
    assert StepAt(env, ws, events, i);
  }

  lemma NextIsSound(env: Env, ws: seq<World>, events: seq<Event>, i: nat)
    requires Honest(env) && IsRun(env, ws, events) && i + 1 < |ws| && Sound(env, ws[i])
    ensures Sound(env, ws[i + 1])
  {
    StepOfRun(env, ws, events, i);
    FollowsKeepsSound(env, ws[i], events[i], ws[i + 1]);
  }

  lemma {:induction false} RunIsSound(env: Env, ws: seq<World>, events: seq<Event>, i: nat)
    requires Honest(env) && IsRun(env, ws, events) && i < |ws|
    ensures Sound(env, ws[i])
  {
    if i == 0 {
      InitialIsSound(env, ws[0]);
    } else {
      RunIsSound(env, ws, events, i - 1);
      NextIsSound(env, ws, events, i - 1);
    }
  }

  /**
   * The start-up checks and the backup command both refuse a data directory with
   * the marker; without it, the components are exactly what the last server
   * write, finished restore or finished metadata restore left, never a mixture.
   */
  lemma GateOpensOnlyOnAWhole(env: Env, ws: seq<World>, events: seq<Event>, i: nat)
    requires Honest(env) && IsRun(env, ws, events) && i < |events|
    requires events[i].ServerCheck? || events[i].BackupStart?
    ensures !Marked(ws[i].data) && ComponentFiles(ws[i].data) == ws[i].whole
  {
    RunIsSound(env, ws, events, i);
    assert StepAt(env, ws, events, i);
  }

  /** A moment at which a backup to `dest` took the free lock of an unmarked data directory. */
  ghost predicate Moment(ws: seq<World>, events: seq<Event>, k: nat, dest: string) {
    && k < |events| && k < |ws| && events[k].BackupStart? && events[k].dest == dest
    && ws[k].holder.Nobody? && !Marked(ws[k].data)
  }

  lemma TakenOnlyAtStart(env: Env, w: World, e: Event, next: World, dest: string, data: Tree)
    requires Follows(env, w, e, next) && data in TakenOf(next, dest)
    ensures data in TakenOf(w, dest) || (e.BackupStart? && e.dest == dest && data == w.data)
  {
  }

  lemma {:induction false} TakenHasAMoment(env: Env, ws: seq<World>, events: seq<Event>, i: nat, dest: string,
                                           data: Tree)
    returns (k: nat)
    requires IsRun(env, ws, events) && i < |ws| && data in TakenOf(ws[i], dest)
    ensures k < i && Moment(ws, events, k, dest) && ws[k].data == data
  {
    assert StepAt(env, ws, events, i - 1);
    TakenOnlyAtStart(env, ws[i - 1], events[i - 1], ws[i], dest, data);
    if data in TakenOf(ws[i - 1], dest) {
      k := TakenHasAMoment(env, ws, events, i - 1, dest, data);
    } else {
      k := i - 1;
    }
  }

  /** No content met in the destination shares a digest with a different one in what was backed up to it. */
  ghost predicate NoneCollide(env: Env, taken: set<Tree>, t: Tree) {
    forall data :: data in taken && Storable(data) ==> NoCollision(env, Slashed(data), ComponentFiles(t))
  }

  /**
   * A directory that holds exactly these files: under names without a backslash,
   * and under names with one at most where, read with separators, one of them is.
   */
  ghost predicate HoldsExactly(t: Tree, files: Snapshot) {
    PlainFiles(t) == files && Shadowed(t, files)
  }

  lemma PlainHoldsExactly(t: Tree, files: Snapshot)
    requires PlainComponents(t)
    ensures HoldsExactly(t, files) <==> ComponentFiles(t) == files
  {
    AllPlain(t);
  }

  /** What a trusted manifest says, and when the checksums level confirms it. */
  lemma TrustedManifest(env: Env, t: Tree, taken: set<Tree>, key: Option<Bytes>) returns (data: Tree)
    requires DestSound(env, t, taken) && Usable(env, t, ManifestOnly, key) && NoneCollide(env, taken, t)
    ensures data in taken && Storable(data)
    ensures Usable(env, t, Checksums, key) <==> HoldsExactly(t, Slashed(data))
  {
    var m := ReadManifest(env, t).value;
    assert Genuine(env, m, taken);
    data :| data in taken && Describes(env, m, data);
    ChecksumsAreExact(env, t, m);
    InventoryNamed(t);
    SlashedNamed(data);
    assert NoCollision(env, Slashed(data), PlainFiles(t)) by {
      assert forall p :: p in PlainFiles(t) ==> p in ComponentFiles(t) && ComponentFiles(t)[p] == PlainFiles(t)[p];
    }
    if EntriesOf(m) == InventoryOf(env, PlainFiles(t)) {
      InventoryDetermines(env, Slashed(data), PlainFiles(t));
    }
  }

  /**
   * In every run, at every moment: if a destination passes even the manifest
   * level, there was one instant when a backup to that destination had just
   * taken the lock of an unmarked, whole data directory, such that the
   * destination passes the checksums level exactly when it holds exactly the
   * files of that instant, as a backup files them: the live files, if none of
   * them has a backslash in its name.
   */
  lemma UsableBackupIsOneInstant(env: Env, ws: seq<World>, events: seq<Event>, i: nat, dest: string, key: Option<Bytes>)
    returns (k: nat)
    requires Honest(env) && IsRun(env, ws, events) && i < |ws| && dest in ws[i].dests
    requires Usable(env, ws[i].dests[dest], ManifestOnly, key)
    requires NoneCollide(env, TakenOf(ws[i], dest), ws[i].dests[dest])
    ensures k < i && Moment(ws, events, k, dest)
    ensures Storable(ws[k].data) && ComponentFiles(ws[k].data) == ws[k].whole
    ensures Usable(env, ws[i].dests[dest], Checksums, key) <==> HoldsExactly(ws[i].dests[dest], Slashed(ws[k].data))
    ensures PlainComponents(ws[i].dests[dest]) ==>
              (HoldsExactly(ws[i].dests[dest], Slashed(ws[k].data)) <==>
               ComponentFiles(ws[i].dests[dest]) == Slashed(ws[k].data))
    ensures Slashed(ws[k].data) == LiveFiles(ws[k].data) <==> PlainLive(ws[k].data)
  {
    RunIsSound(env, ws, events, i);
    var data := TrustedManifest(env, ws[i].dests[dest], TakenOf(ws[i], dest), key);
    k := TakenHasAMoment(env, ws, events, i, dest, data);
    GateOpensOnlyOnAWhole(env, ws, events, k);
    SlashedIsLiveExactly(data);
    if PlainComponents(ws[i].dests[dest]) {
      PlainHoldsExactly(ws[i].dests[dest], Slashed(data));
    }
  }

  // ------------------------------------------------ completed destinations

  /** A backup pointed at a completed destination has nothing it may do. */
  ghost predicate Refused(w: World, dest: string) {
    Writing(w, dest) ==> w.holder.done == 0 && w.holder.script != [] && w.holder.script[0] == Stop
  }

  lemma CompleteIsRefused(os: System, t: Tree, replace: bool)
    requires WellFormed(t) && Complete(t)
    ensures PrepareOps(os, t, replace) == [Stop]
  {
    AncestorsAreDirs(t, [], [MANIFEST]);
    assert [] <= [MANIFEST];
  }

  lemma StartKeepsComplete(env: Env, w: World, os: System, settings: Settings, replace: bool, aimed: string,
                           dest: string)
    requires Lawful(os) && WellFormed(w.data) && w.holder.Nobody?
    requires dest in w.dests && WellFormed(w.dests[dest]) && Complete(w.dests[dest])
    ensures var next := StartBackup(env, w, os, settings, replace, aimed);
            dest in next.dests && next.dests[dest] == w.dests[dest] && Refused(next, dest)
  {
    CompleteIsRefused(os, w.dests[dest], replace);
  }

  lemma AdvanceKeepsComplete(w: World, dest: string)
    requires w.holder.BackingUp? && CanAdvance(DestOf(w, w.holder.dest), w.holder.script, w.holder.done)
    requires dest in w.dests && Refused(w, dest)
    ensures w.holder.dest != dest
    ensures var next := AdvanceBackup(w);
            dest in next.dests && next.dests[dest] == w.dests[dest] && Refused(next, dest)
  {
  }

  lemma StepKeepsComplete(env: Env, w: World, e: Event, next: World, dest: string)
    requires Follows(env, w, e, next)
    requires dest in w.dests && WellFormed(w.dests[dest]) && Complete(w.dests[dest]) && Refused(w, dest)
    requires !(e.Damage? && e.dest == dest)
    ensures dest in next.dests && next.dests[dest] == w.dests[dest] && Refused(next, dest)
  {
    if e.BackupStart? {
      StartKeepsComplete(env, w, e.os, e.settings, e.replace, e.dest, dest);
    } else if e.Advance? && w.holder.BackingUp? {
      AdvanceKeepsComplete(w, dest);
    } else {
      OthersLeaveDests(env, w, e, next, dest);
    }
  }

  lemma OthersLeaveDests(env: Env, w: World, e: Event, next: World, dest: string)
    requires Follows(env, w, e, next)
    requires !e.BackupStart? && !(e.Advance? && w.holder.BackingUp?) && !(e.Damage? && e.dest == dest)
    requires dest in w.dests && Refused(w, dest)
    ensures dest in next.dests && next.dests[dest] == w.dests[dest] && Refused(next, dest)
  {
  }

  lemma NextIsKept(env: Env, ws: seq<World>, events: seq<Event>, j: nat, dest: string)
    requires Honest(env) && IsRun(env, ws, events) && j < |events| && j + 1 < |ws|
    requires dest in ws[j].dests && Complete(ws[j].dests[dest]) && Refused(ws[j], dest)
    requires !(events[j].Damage? && events[j].dest == dest)
    ensures dest in ws[j + 1].dests && ws[j + 1].dests[dest] == ws[j].dests[dest] && Refused(ws[j + 1], dest)
  {
    RunIsSound(env, ws, events, j);
    StepOfRun(env, ws, events, j);
    StepKeepsComplete(env, ws[j], events[j], ws[j + 1], dest);
  }

  /**
   * A completed destination is never written to again, whatever backups are
   * aimed at it, with or without the replace flag, and wherever they die.
   */
  lemma {:induction false} CompleteIsKept(env: Env, ws: seq<World>, events: seq<Event>, i: nat, j: nat, dest: string)
    requires Honest(env) && IsRun(env, ws, events) && i <= j < |ws|
    requires dest in ws[i].dests && Complete(ws[i].dests[dest]) && !Writing(ws[i], dest)
    requires forall k :: i <= k < j ==> !(events[k].Damage? && events[k].dest == dest)
    ensures dest in ws[j].dests && ws[j].dests[dest] == ws[i].dests[dest] && Refused(ws[j], dest)
  {
    if i < j {
      CompleteIsKept(env, ws, events, i, j - 1, dest);
      NextIsKept(env, ws, events, j - 1, dest);
    }
  }
}
