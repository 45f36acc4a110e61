/** Runs put together event by event, for the statements that something can happen. */
module RunBuilding {
  import opened Filesystem
  import opened Layout
  import opened Manifests
  import opened Backups
  import opened BackupSafety
  import opened Deployment
  import opened DeploymentRuns

  function Last<T>(s: seq<T>): T
    requires s != []
  {
    s[|s| - 1]
  }

  /** One more event. */
  lemma Extend(env: Env, ws: seq<World>, events: seq<Event>, e: Event) returns (ws': seq<World>, events': seq<Event>)
    requires IsRun(env, ws, events) && WellFormed(Last(ws).data) && Allowed(env, Last(ws), e)
    ensures IsRun(env, ws', events') && ws'[0] == ws[0] && Last(ws') == Step(env, Last(ws), e)
  {
    ws', events' := ws + [Step(env, Last(ws), e)], events + [e];
    forall i: nat | i < |events'| ensures StepAt(env, ws', events', i) {
      if i < |events| {
        assert StepAt(env, ws, events, i);
      }
    }
  }

  /** A run of no events. */
  lemma Begin(env: Env, data: Tree) returns (ws: seq<World>, events: seq<Event>)
    requires WellFormed(data)
    ensures IsRun(env, ws, events) && events == []
    ensures ws[0] == Last(ws) == World(data, map[], Nobody, {}, map[], ComponentFiles(data))
  {
    ws, events := [World(data, map[], Nobody, {}, map[], ComponentFiles(data))], [];
  }

  lemma NextEnabled(base: Tree, script: seq<Op>, k: nat, now: Tree)
    requires k < |script| && ReachedBy(base, script, k, now) && Executes(base, script[..k + 1])
    ensures CanAdvance(now, script, k)
  {
    assert script[..k + 1] == script[..k] + [script[k]];
    AfterSnoc(base, script[..k], script[k]);
  }

  lemma Shorter(base: Tree, script: seq<Op>, k: nat)
    requires k < |script| && Executes(base, script[..k + 1])
    ensures Executes(base, script[..k])
  {
    assert script[..k] == script[..k + 1][..k];
    ExecutesPrefix(base, script[..k], script[..k + 1]);
  }

  /** The same world with a restore this far. */
  function WithRestore(w: World, base: Tree, script: seq<Op>, result: Snapshot, k: nat): World
    requires k <= |script|
  {
    w.(data := After(base, script[..k]), holder := Restoring(base, script, k, result))
  }

  lemma RestoreStep(env: Env, w: World, base: Tree, script: seq<Op>, result: Snapshot, k: nat)
    requires WellFormed(base) && k + 1 < |script| && Executes(base, script[..k + 1])
    ensures WellFormed(WithRestore(w, base, script, result, k).data)
    ensures Allowed(env, WithRestore(w, base, script, result, k), Advance)
    ensures Step(env, WithRestore(w, base, script, result, k), Advance) == WithRestore(w, base, script, result, k + 1)
  {
    var now := After(base, script[..k]);
    Shorter(base, script, k);
    AfterWellFormed(base, script[..k]);
    NextEnabled(base, script, k, now);
    AdvanceOne(base, script, k, now);
  }

  /** A restore that goes on, up to some operation short of its last. */
  lemma {:induction false} RestoreOn(env: Env, ws: seq<World>, events: seq<Event>, w: World, base: Tree,
                                     script: seq<Op>, result: Snapshot, k: nat)
    returns (ws': seq<World>, events': seq<Event>)
    requires IsRun(env, ws, events) && WellFormed(base) && k < |script| && Executes(base, script[..k])
    requires Last(ws) == w.(data := base, holder := Restoring(base, script, 0, result))
    ensures IsRun(env, ws', events') && ws'[0] == ws[0] && Last(ws') == WithRestore(w, base, script, result, k)
  {
    if k == 0 {
      ws', events' := ws, events;
      assert script[..0] == [];
    } else {
      Shorter(base, script, k - 1);
      ws', events' := RestoreOn(env, ws, events, w, base, script, result, k - 1);
      RestoreStep(env, w, base, script, result, k - 1);
      ws', events' := Extend(env, ws', events', Advance);
    }
  }

  /** The same world with a backup this far. */
  function WithBackup(w: World, dest: string, base: Tree, script: seq<Op>, k: nat): World
    requires k <= |script|
  {
    w.(dests := w.dests[dest := After(base, script[..k])], holder := BackingUp(dest, base, script, k))
  }

  lemma BackupStep(env: Env, w: World, dest: string, base: Tree, script: seq<Op>, k: nat)
    requires WellFormed(w.data) && k < |script| && Executes(base, script[..k + 1])
    ensures Allowed(env, WithBackup(w, dest, base, script, k), Advance)
    ensures Step(env, WithBackup(w, dest, base, script, k), Advance) == WithBackup(w, dest, base, script, k + 1)
  {
    var now := After(base, script[..k]);
    Shorter(base, script, k);
    NextEnabled(base, script, k, now);
    AdvanceOne(base, script, k, now);
    BackupAdvanced(w, dest, base, script, k);
  }

  lemma BackupAdvanced(w: World, dest: string, base: Tree, script: seq<Op>, k: nat)
    requires k < |script| && After(base, script[..k + 1]) == Apply(After(base, script[..k]), script[k])
    ensures AdvanceBackup(WithBackup(w, dest, base, script, k)) == WithBackup(w, dest, base, script, k + 1)
  {
    var now, next := After(base, script[..k]), After(base, script[..k + 1]);
    assert w.dests[dest := now][dest := next] == w.dests[dest := next];
  }

  /** A backup that goes on, up to any of its operations. */
  lemma {:induction false} BackupOn(env: Env, ws: seq<World>, events: seq<Event>, w: World, dest: string, base: Tree,
                                    script: seq<Op>, k: nat) returns (ws': seq<World>, events': seq<Event>)
    requires IsRun(env, ws, events) && WellFormed(w.data) && Last(ws) == WithBackup(w, dest, base, script, 0)
    requires k <= |script| && Executes(base, script[..k])
    ensures IsRun(env, ws', events') && ws'[0] == ws[0] && Last(ws') == WithBackup(w, dest, base, script, k)
  {
    if k == 0 {
      ws', events' := ws, events;
    } else {
      Shorter(base, script, k - 1);
      ws', events' := BackupOn(env, ws, events, w, dest, base, script, k - 1);
      BackupStep(env, w, dest, base, script, k - 1);
      ws', events' := Extend(env, ws', events', Advance);
    }
  }

  /** The same world with one more data directory recorded for a destination. */
  function Recorded(w: World, dest: string): World {
    w.(taken := w.taken[dest := TakenOf(w, dest) + {w.data}])
  }

  lemma BackupBegins(env: Env, w: World, os: System, settings: Settings, replace: bool, dest: string)
    requires Lawful(os) && WellFormed(w.data) && w.holder.Nobody? && BackupAdmitted(w.data)
    ensures Allowed(env, w, BackupStart(os, settings, replace, dest))
    ensures Step(env, w, BackupStart(os, settings, replace, dest)) ==
            WithBackup(Recorded(w, dest), dest, DestOf(w, dest),
                       BackupScript(env, os, settings, w.data, DestOf(w, dest), replace), 0)
  {
    assert BackupScript(env, os, settings, w.data, DestOf(w, dest), replace)[..0] == [];
  }

  /** A backup from its start up to any of its operations. */
  lemma BackupUpTo(env: Env, ws: seq<World>, events: seq<Event>, os: System, settings: Settings, replace: bool,
                   dest: string, script: seq<Op>, k: nat) returns (ws': seq<World>, events': seq<Event>)
    requires IsRun(env, ws, events) && Lawful(os) && WellFormed(Last(ws).data)
    requires Last(ws).holder.Nobody? && BackupAdmitted(Last(ws).data)
    requires script == BackupScript(env, os, settings, Last(ws).data, DestOf(Last(ws), dest), replace)
    requires k <= |script| && Executes(DestOf(Last(ws), dest), script[..k])
    ensures IsRun(env, ws', events') && ws'[0] == ws[0]
    ensures Last(ws') == WithBackup(Recorded(Last(ws), dest), dest, DestOf(Last(ws), dest), script, k)
  {
    BackupBegins(env, Last(ws), os, settings, replace, dest);
    ws', events' := Extend(env, ws, events, BackupStart(os, settings, replace, dest));
    ws', events' := BackupOn(env, ws', events', Recorded(Last(ws), dest), dest, DestOf(Last(ws), dest), script, k);
  }
}
