/**
 * A deployment over its lifetime: one data directory behind one lock, any
 * number of backup destinations, and the processes that take turns.  Whoever
 * holds the lock advances one operation at a time and may die between any two.
 */
module Deployment {
  import opened Filesystem
  import opened Layout
  import opened Manifests
  import opened Verification
  import opened Backups
  import opened BackupSafety
  import opened Restores
  import opened RestoreSafety
  import opened RestoreEffect
  import opened LegacyRestore

  /** Who holds the data directory's lock, what they set out to do, and how far they have got. */
  datatype Holder =
    | Nobody
    | Server
    | BackingUp(dest: string, base: Tree, script: seq<Op>, done: nat)
    | Restoring(base: Tree, script: seq<Op>, done: nat, result: Snapshot)
    | RestoringMetadata(base: Tree, script: seq<Op>, done: nat, result: Snapshot)
    | BackingUpMetadata

  /**
   * `checked` are the servers that passed their start-up checks and have yet to
   * ask for the lock; `taken` records, per destination, the data directory at
   * each moment a backup to it started; `whole` records the component files the
   * last server write, finished restore or finished metadata restore left.
   */
  datatype World = World(
    data: Tree,
    dests: map<string, Tree>,
    holder: Holder,
    checked: set<nat>,
    taken: map<string, set<Tree>>,
    whole: Snapshot)

  datatype Event =
    | ServerCheck(server: nat)
    | ServerLock(server: nat)
    | ServerWrite(next: Tree)
    | BackupStart(os: System, settings: Settings, replace: bool, dest: string)
    | RestoreStart(os: System, settings: Settings, level: Level, source: Tree, staging: string, note: Bytes)
    | MetadataRestoreStart(os: System, source: Tree, staging: string)
    | MetadataBackupStart
    | Advance
    | Release
    | Damage(dest: string, next: Tree)

  function DestOf(w: World, dest: string): Tree {
    if dest in w.dests then w.dests[dest] else map[]
  }

  function TakenOf(w: World, dest: string): set<Tree> {
    if dest in w.taken then w.taken[dest] else {}
  }

  predicate Marked(t: Tree) {
    [RESTORE_MARKER] in t
  }

  /** Anything may happen to the files inside a finished destination's components. */
  ghost predicate DamagedOnlyInside(t: Tree, u: Tree) {
    forall p: Path :: !(|p| >= 2 && InComponent(p)) ==> SameAt(t, u, p)
  }

  ghost predicate Writing(w: World, dest: string) {
    w.holder.BackingUp? && w.holder.dest == dest
  }

  ghost predicate CanAdvance(t: Tree, script: seq<Op>, done: nat) {
    done < |script| && Enabled(t, script[done])
  }

  /**
   * When an event can happen.  A server looks at the marker without holding the
   * lock and never looks again; a backup looks while holding it; a metadata
   * restore does not look.  A server neither makes nor removes the marker.
   */
  ghost predicate Allowed(env: Env, w: World, e: Event) {
    match e
    case ServerCheck(_) => !Marked(w.data)
    case ServerLock(server) => w.holder.Nobody? && server in w.checked
    case ServerWrite(next) => w.holder.Server? && WellFormed(next) && (Marked(next) <==> Marked(w.data))
    case BackupStart(os, _, _, _) => w.holder.Nobody? && Lawful(os) && BackupAdmitted(w.data)
    case RestoreStart(os, settings, level, source, staging, _) =>
      w.holder.Nobody? && Lawful(os) && IsStagingName(staging) && RestoreAdmitted(env, source, level, settings)
    case MetadataRestoreStart(_, _, staging) => w.holder.Nobody? && IsStagingName(staging)
    case MetadataBackupStart => w.holder.Nobody?
    case Advance =>
      || (w.holder.BackingUp? && CanAdvance(DestOf(w, w.holder.dest), w.holder.script, w.holder.done))
      || (w.holder.Restoring? && CanAdvance(w.data, w.holder.script, w.holder.done))
      || (w.holder.RestoringMetadata? && CanAdvance(w.data, w.holder.script, w.holder.done))
    case Release => !w.holder.Nobody?
    case Damage(dest, next) =>
      && dest in w.dests && !Writing(w, dest)
      && WellFormed(next) && DamagedOnlyInside(w.dests[dest], next)
  }

  function StartBackup(env: Env, w: World, os: System, settings: Settings, replace: bool, dest: string): World
    requires Lawful(os) && WellFormed(w.data)
  {
    var base := DestOf(w, dest);
    w.(dests := w.dests[dest := base],
       holder := BackingUp(dest, base, BackupScript(env, os, settings, w.data, base, replace), 0),
       taken := w.taken[dest := TakenOf(w, dest) + {w.data}])
  }

  function StartRestore(env: Env, w: World, os: System, source: Tree, m: Manifest, staging: string,
                        note: Bytes): World {
    w.(holder := Restoring(w.data, RestoreScript(env, os, w.data, source, m, staging, note), 0,
                           Restored(env, source, m)))
  }

  function StartMetadataRestore(env: Env, w: World, os: System, source: Tree, staging: string): World {
    w.(holder := RestoringMetadata(w.data, LegacyScript(env, os, w.data, source, staging), 0,
                                   MetadataResult(env, w.data, source)))
  }

  function AdvanceBackup(w: World): World
    requires w.holder.BackingUp? && w.holder.done < |w.holder.script|
  {
    var BackingUp(dest, base, script, done) := w.holder;
    w.(dests := w.dests[dest := Apply(DestOf(w, dest), script[done])],
       holder := BackingUp(dest, base, script, done + 1))
  }

  function AdvanceRestore(w: World): World
    requires w.holder.Restoring? && w.holder.done < |w.holder.script|
  {
    var Restoring(base, script, done, result) := w.holder;
    w.(data := Apply(w.data, script[done]),
       holder := Restoring(base, script, done + 1, result),
       whole := if done + 1 == |script| then result else w.whole)
  }

  function AdvanceMetadataRestore(w: World): World
    requires w.holder.RestoringMetadata? && w.holder.done < |w.holder.script|
  {
    var RestoringMetadata(base, script, done, result) := w.holder;
    w.(data := Apply(w.data, script[done]),
       holder := RestoringMetadata(base, script, done + 1, result),
       whole := if done + 1 == |script| && !Marked(base) then result else w.whole)
  }

  ghost function Step(env: Env, w: World, e: Event): World
    requires Allowed(env, w, e) && WellFormed(w.data)
  {
    match e
    case ServerCheck(server) => w.(checked := w.checked + {server})
    case ServerLock(server) => w.(holder := Server, checked := w.checked - {server})
    case ServerWrite(next) => w.(data := next, whole := if Marked(next) then w.whole else ComponentFiles(next))
    case BackupStart(os, settings, replace, dest) => StartBackup(env, w, os, settings, replace, dest)
    case RestoreStart(os, _, _, source, staging, note) =>
      StartRestore(env, w, os, source, ReadManifest(env, source).value, staging, note)
    case MetadataRestoreStart(os, source, staging) => StartMetadataRestore(env, w, os, source, staging)
    case MetadataBackupStart => w.(holder := BackingUpMetadata)
    case Advance =>
      if w.holder.BackingUp? then AdvanceBackup(w)
      else if w.holder.Restoring? then AdvanceRestore(w)
      else AdvanceMetadataRestore(w)
    case Release => w.(holder := Nobody)
    case Damage(dest, next) => w.(dests := w.dests[dest := next])
  }

  // --------------------------------------------------------------- invariant

  ghost predicate DestSound(env: Env, t: Tree, taken: set<Tree>) {
    WellFormed(t) && Trustworthy(env, t, taken)
  }

  /** Stopped anywhere, this leaves a destination that claims nothing untrue. */
  ghost predicate TruthfulPlan(env: Env, base: Tree, script: seq<Op>, taken: set<Tree>) {
    forall k: nat :: k <= |script| && Executes(base, script[..k]) ==> DestSound(env, After(base, script[..k]), taken)
  }

  /**
   * Stopped anywhere short of its end, this leaves the marker if it found one or
   * has put its own down, and an untouched directory otherwise; at its end, no
   * marker and exactly the result.
   */
  ghost predicate AllOrMarkedPlan(base: Tree, script: seq<Op>, result: Snapshot) {
    && script != []
    && forall k: nat :: k <= |script| && Executes(base, script[..k]) ==>
         var u := After(base, script[..k]);
         if k == |script| then !Marked(u) && ComponentFiles(u) == result
         else && (Marked(u) <==> Marked(base) || Truncate([RESTORE_MARKER]) in script[..k])
              && (Marked(u) || ComponentFiles(u) == ComponentFiles(base))
  }

  /** This changes the components with its last step only, and never the marker. */
  ghost predicate AtOncePlan(base: Tree, script: seq<Op>, result: Snapshot) {
    && script != []
    && forall k: nat :: k <= |script| && Executes(base, script[..k]) ==>
         var u := After(base, script[..k]);
         && (Marked(u) <==> Marked(base))
         && ComponentFiles(u) == if k == |script| then result else ComponentFiles(base)
  }

  ghost predicate ReachedBy(base: Tree, script: seq<Op>, done: nat, now: Tree) {
    done <= |script| && Executes(base, script[..done]) && now == After(base, script[..done])
  }

  /** Unmarked, the files a plan set out from are whole, and so is its result once it is there. */
  ghost predicate WholeWith(base: Tree, finished: bool, result: Snapshot, whole: Snapshot) {
    Marked(base) || whole == if finished then result else ComponentFiles(base)
  }

  ghost predicate HolderSound(env: Env, w: World) {
    match w.holder
    case BackingUp(dest, base, script, done) =>
      && dest in w.dests && ReachedBy(base, script, done, w.dests[dest])
      && TruthfulPlan(env, base, script, TakenOf(w, dest))
      && !Marked(w.data) && w.data in TakenOf(w, dest)
    case Restoring(base, script, done, result) =>
      && ReachedBy(base, script, done, w.data) && AllOrMarkedPlan(base, script, result)
      && WholeWith(base, done == |script|, result, w.whole) && (done == |script| ==> w.whole == result)
    case RestoringMetadata(base, script, done, result) =>
      && ReachedBy(base, script, done, w.data) && AtOncePlan(base, script, result)
      && WholeWith(base, done == |script|, result, w.whole)
    case _ => true
  }

  /** Without the marker, what is there is whole. */
  ghost predicate NoMixture(data: Tree, whole: Snapshot) {
    Marked(data) || ComponentFiles(data) == whole
  }

  ghost predicate Sound(env: Env, w: World) {
    && WellFormed(w.data)
    && (forall d :: d in w.dests ==> DestSound(env, w.dests[d], TakenOf(w, d)))
    && HolderSound(env, w)
    && NoMixture(w.data, w.whole)
  }

  // ------------------------------------------------------------------- plans

  lemma DestGrows(env: Env, t: Tree, taken: set<Tree>, more: set<Tree>)
    requires DestSound(env, t, taken) && taken <= more
    ensures DestSound(env, t, more)
  {
    TrustGrows(env, t, taken, more);
  }

  lemma BackupPlanIsTruthful(env: Env, os: System, settings: Settings, data: Tree, base: Tree, replace: bool,
                             taken: set<Tree>)
    requires Honest(env) && Lawful(os) && WellFormed(data) && DestSound(env, base, taken) && data in taken
    ensures TruthfulPlan(env, base, BackupScript(env, os, settings, data, base, replace), taken)
  {
    var script := BackupScript(env, os, settings, data, base, replace);
    forall k: nat | k <= |script| && Executes(base, script[..k])
      ensures DestSound(env, After(base, script[..k]), taken)
    {
      AfterWellFormed(base, script[..k]);
      BackupKeepsTrust(env, os, settings, data, base, replace, script[..k], taken);
      assert taken + {data} == taken;
    }
  }

  lemma MakeRootKeepsFiles(t: Tree)
    ensures ComponentFiles(Apply(t, MakeDirs([]))) == ComponentFiles(t)
  {
  }

  lemma RestorePlanIsAllOrMarked(env: Env, os: System, base: Tree, source: Tree, m: Manifest, staging: string,
                                 note: Bytes)
    requires Lawful(os) && IsStagingName(staging) && WellFormed(base)
    ensures AllOrMarkedPlan(base, RestoreScript(env, os, base, source, m, staging, note), Restored(env, source, m))
  {
    var script := RestoreScript(env, os, base, source, m, staging, note);
    MakeRootKeepsFiles(base);
    forall k: nat | k <= |script| && Executes(base, script[..k])
      ensures var u := After(base, script[..k]);
              if k == |script| then !Marked(u) && ComponentFiles(u) == Restored(env, source, m)
              else && (Marked(u) <==> Marked(base) || Truncate([RESTORE_MARKER]) in script[..k])
                   && (Marked(u) || ComponentFiles(u) == ComponentFiles(base))
    {
      if k == |script| {
        assert script[..k] == script;
        RestoreCompleted(env, os, base, source, m, staging, note);
      } else {
        RestoreInterrupted(env, os, base, source, m, staging, note, script[..k]);
        MarkedByItself(env, os, base, source, m, staging, note, script[..k]);
      }
    }
  }

  lemma MetadataPlanIsAtOnce(env: Env, os: System, base: Tree, source: Tree, staging: string)
    requires IsStagingName(staging) && WellFormed(base)
    ensures AtOncePlan(base, LegacyScript(env, os, base, source, staging), MetadataResult(env, base, source))
  {
    var script := LegacyScript(env, os, base, source, staging);
    forall k: nat | k <= |script| && Executes(base, script[..k])
      ensures var u := After(base, script[..k]);
              && (Marked(u) <==> Marked(base))
              && ComponentFiles(u) == if k == |script| then MetadataResult(env, base, source) else ComponentFiles(base)
    {
      assert script[..k] == script <==> k == |script|;
      LegacyAtOnce(env, os, base, source, staging, script[..k]);
    }
  }

  lemma AdvanceOne(base: Tree, script: seq<Op>, done: nat, now: Tree)
    requires ReachedBy(base, script, done, now) && CanAdvance(now, script, done)
    ensures ReachedBy(base, script, done + 1, Apply(now, script[done]))
  {
    assert script[..done + 1] == script[..done] + [script[done]];
    AfterSnoc(base, script[..done], script[done]);
  }

  // ------------------------------------------------------------------- steps

  /** One operation further, the destination is still one the plan accounts for. */
  lemma DestAdvances(env: Env, base: Tree, script: seq<Op>, done: nat, now: Tree, taken: set<Tree>)
    requires ReachedBy(base, script, done, now) && CanAdvance(now, script, done)
    requires TruthfulPlan(env, base, script, taken)
    ensures ReachedBy(base, script, done + 1, Apply(now, script[done]))
    ensures DestSound(env, Apply(now, script[done]), taken)
  {
    AdvanceOne(base, script, done, now);
  }

  lemma BackupAdvances(env: Env, w: World)
    requires Sound(env, w) && w.holder.BackingUp? && Allowed(env, w, Advance)
    ensures Sound(env, AdvanceBackup(w))
  {
    var BackingUp(dest, base, script, done) := w.holder;
    DestAdvances(env, base, script, done, w.dests[dest], TakenOf(w, dest));
    var next := AdvanceBackup(w);
    assert next.dests == w.dests[dest := Apply(w.dests[dest], script[done])];
    assert forall d :: TakenOf(next, d) == TakenOf(w, d);
  }

  lemma DestsStay(env: Env, w: World, next: World)
    requires Sound(env, w) && next.dests == w.dests && next.taken == w.taken
    ensures forall d :: d in next.dests ==> DestSound(env, next.dests[d], TakenOf(next, d))
  {
    forall d | d in next.dests ensures DestSound(env, next.dests[d], TakenOf(next, d)) {
      assert TakenOf(next, d) == TakenOf(w, d);
    }
  }

  lemma RestoreAdvances(env: Env, w: World)
    requires Sound(env, w) && w.holder.Restoring? && Allowed(env, w, Advance)
    ensures Sound(env, AdvanceRestore(w))
  {
    AdvanceOne(w.holder.base, w.holder.script, w.holder.done, w.data);
    ApplyWellFormed(w.data, w.holder.script[w.holder.done]);
    DestsStay(env, w, AdvanceRestore(w));
  }

  lemma MetadataRestoreAdvances(env: Env, w: World)
    requires Sound(env, w) && w.holder.RestoringMetadata? && Allowed(env, w, Advance)
    ensures Sound(env, AdvanceMetadataRestore(w))
  {
    AdvanceOne(w.holder.base, w.holder.script, w.holder.done, w.data);
    ApplyWellFormed(w.data, w.holder.script[w.holder.done]);
    DestsStay(env, w, AdvanceMetadataRestore(w));
  }

  lemma RestoreStarts(env: Env, w: World, os: System, source: Tree, m: Manifest, staging: string, note: Bytes)
    requires Sound(env, w) && w.holder.Nobody? && Lawful(os) && IsStagingName(staging)
    ensures Sound(env, StartRestore(env, w, os, source, m, staging, note))
  {
    RestorePlanIsAllOrMarked(env, os, w.data, source, m, staging, note);
    StartReached(w.data, RestoreScript(env, os, w.data, source, m, staging, note));
    DestsStay(env, w, StartRestore(env, w, os, source, m, staging, note));
  }

  lemma MetadataRestoreStarts(env: Env, w: World, os: System, source: Tree, staging: string)
    requires Sound(env, w) && w.holder.Nobody? && IsStagingName(staging)
    ensures Sound(env, StartMetadataRestore(env, w, os, source, staging))
  {
    MetadataPlanIsAtOnce(env, os, w.data, source, staging);
    StartReached(w.data, LegacyScript(env, os, w.data, source, staging));
    DestsStay(env, w, StartMetadataRestore(env, w, os, source, staging));
  }

  lemma StartReached(base: Tree, script: seq<Op>)
    ensures ReachedBy(base, script, 0, base)
  {
    assert script[..0] == [];
  }

  lemma BaseIsSound(env: Env, w: World, dest: string)
    requires Sound(env, w)
    ensures DestSound(env, DestOf(w, dest), TakenOf(w, dest) + {w.data})
  {
    assert DestSound(env, DestOf(w, dest), TakenOf(w, dest));
    DestGrows(env, DestOf(w, dest), TakenOf(w, dest), TakenOf(w, dest) + {w.data});
  }

  lemma BackupStarts(env: Env, w: World, os: System, settings: Settings, replace: bool, dest: string)
    requires Honest(env) && Sound(env, w) && w.holder.Nobody? && Lawful(os) && !Marked(w.data)
    ensures Sound(env, StartBackup(env, w, os, settings, replace, dest))
  {
    var base, more := DestOf(w, dest), TakenOf(w, dest) + {w.data};
    var script := BackupScript(env, os, settings, w.data, base, replace);
    BaseIsSound(env, w, dest);
    BackupPlanIsTruthful(env, os, settings, w.data, base, replace, more);
    StartReached(base, script);
    StartedIsSound(env, w, dest, base, script, more);
  }

  lemma DestsWithOneMore(env: Env, w: World, next: World, dest: string, base: Tree, more: set<Tree>)
    requires Sound(env, w) && DestSound(env, base, more)
    requires next.dests == w.dests[dest := base] && next.taken == w.taken[dest := more]
    ensures forall d :: d in next.dests ==> DestSound(env, next.dests[d], TakenOf(next, d))
  {
    forall d | d in next.dests ensures DestSound(env, next.dests[d], TakenOf(next, d)) {
      if d != dest {
        assert DestSound(env, w.dests[d], TakenOf(w, d)) && TakenOf(next, d) == TakenOf(w, d);
      }
    }
  }

  lemma StartedIsSound(env: Env, w: World, dest: string, base: Tree, script: seq<Op>, more: set<Tree>)
    requires Sound(env, w) && !Marked(w.data) && w.data in more
    requires DestSound(env, base, more) && TruthfulPlan(env, base, script, more) && ReachedBy(base, script, 0, base)
    ensures Sound(env, w.(dests := w.dests[dest := base], holder := BackingUp(dest, base, script, 0),
                          taken := w.taken[dest := more]))
  {
    var next := w.(dests := w.dests[dest := base], holder := BackingUp(dest, base, script, 0),
                   taken := w.taken[dest := more]);
    DestsWithOneMore(env, w, next, dest, base, more);
    assert TakenOf(next, dest) == more;
    assert HolderSound(env, next);
  }

  lemma DamageKeepsTrust(env: Env, t: Tree, u: Tree, taken: set<Tree>)
    requires Trustworthy(env, t, taken) && DamagedOnlyInside(t, u)
    ensures Trustworthy(env, u, taken)
  {
    assert SameAt(t, u, [MANIFEST]) && SameAt(t, u, [LEGACY_MANIFEST]);
  }

  lemma DamageKeepsSound(env: Env, w: World, dest: string, next: Tree)
    requires Sound(env, w) && dest in w.dests && !Writing(w, dest) && DestSound(env, next, TakenOf(w, dest))
    ensures Sound(env, w.(dests := w.dests[dest := next]))
  {
    assert forall d :: TakenOf(w.(dests := w.dests[dest := next]), d) == TakenOf(w, d);
  }

  /** Events that leave the destinations alone and start no script. */
  lemma QuietKeepsSound(env: Env, w: World, e: Event)
    requires Sound(env, w) && Allowed(env, w, e)
    requires e.ServerCheck? || e.ServerLock? || e.ServerWrite? || e.MetadataBackupStart? || e.Release?
    ensures Sound(env, Step(env, w, e))
  {
    DestsStay(env, w, Step(env, w, e));
  }

  /** Every event of every process keeps the whole picture sound. */
  lemma StepKeepsSound(env: Env, w: World, e: Event)
    requires Honest(env) && Sound(env, w) && Allowed(env, w, e)
    ensures Sound(env, Step(env, w, e))
  {
    match e
    case BackupStart(os, settings, replace, dest) => BackupStarts(env, w, os, settings, replace, dest);
    case RestoreStart(os, _, _, source, staging, note) =>
      RestoreStarts(env, w, os, source, ReadManifest(env, source).value, staging, note);
    case MetadataRestoreStart(os, source, staging) => MetadataRestoreStarts(env, w, os, source, staging);
    case Advance =>
      if w.holder.BackingUp? {
        BackupAdvances(env, w);
      } else if w.holder.Restoring? {
        RestoreAdvances(env, w);
      } else {
        MetadataRestoreAdvances(env, w);
      }
    case Damage(dest, next) =>
      DamageKeepsTrust(env, w.dests[dest], next, TakenOf(w, dest));
      DamageKeepsSound(env, w, dest, next);
    case _ =>
      QuietKeepsSound(env, w, e);
  }
}
