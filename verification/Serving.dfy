/**
 * A server looks at the restore marker before it holds the lock and never looks
 * again.  When that lets it onto a directory no restore has finished.
 */
module Serving {
  import opened Filesystem
  import opened Layout
  import opened Manifests
  import opened Deployment
  import opened DeploymentRuns

  ghost predicate Unfinished(w: World) {
    w.holder.Restoring? && w.holder.done < |w.holder.script|
  }

  /** A restore that found a marker, or has carried out the operation that puts its own down. */
  ghost predicate PastMarker(w: World) {
    && w.holder.Restoring? && w.holder.done <= |w.holder.script|
    && (Marked(w.holder.base) || Truncate([RESTORE_MARKER]) in w.holder.script[..w.holder.done])
  }

  /** A restore that is past its marker lets go of the lock short of its end. */
  ghost predicate Abandoned(ws: seq<World>, events: seq<Event>, k: nat) {
    k < |events| && k < |ws| && events[k].Release? && Unfinished(ws[k]) && PastMarker(ws[k])
  }

  ghost predicate Finishing(w: World, e: Event) {
    e.Advance? && w.holder.Restoring? && w.holder.done + 1 == |w.holder.script|
  }

  ghost predicate Finished(ws: seq<World>, events: seq<Event>, k: nat) {
    k < |events| && k < |ws| && Finishing(ws[k], events[k])
  }

  ghost predicate NoneFinished(ws: seq<World>, events: seq<Event>, i: nat, j: nat) {
    forall k: nat :: i <= k < j ==> !Finished(ws, events, k)
  }

  /** Between these moments a restore was abandoned, and none has finished since. */
  ghost predicate LeftMarked(ws: seq<World>, events: seq<Event>, i: nat, j: nat) {
    exists k: nat :: i <= k < j && Abandoned(ws, events, k) && NoneFinished(ws, events, k + 1, j)
  }

  /** A restore under way has got where its script leads, which is never past its marker unmarked. */
  ghost predicate OnPlan(w: World) {
    match w.holder
    case Restoring(base, script, done, result) =>
      ReachedBy(base, script, done, w.data) && AllOrMarkedPlan(base, script, result)
    case RestoringMetadata(base, script, done, result) =>
      ReachedBy(base, script, done, w.data) && AtOncePlan(base, script, result)
    case _ => true
  }

  lemma RunIsOnPlan(env: Env, ws: seq<World>, events: seq<Event>, i: nat)
    requires Honest(env) && IsRun(env, ws, events) && i < |ws|
    ensures OnPlan(ws[i])
  {
    RunIsSound(env, ws, events, i);
  }

  /** Where a restore under way can be. */
  lemma RestoringAt(w: World)
    requires OnPlan(w)
    ensures w.holder.Restoring? ==>
              && (w.holder.done == |w.holder.script| ==> !Marked(w.data))
              && (w.holder.done < |w.holder.script| ==> (Marked(w.data) <==> PastMarker(w)))
    ensures w.holder.RestoringMetadata? ==> (Marked(w.data) <==> Marked(w.holder.base))
  {
  }

  // ------------------------------------------------------- where a marker comes from

  lemma StepMarks(env: Env, w: World, e: Event, next: World)
    requires OnPlan(w) && OnPlan(next) && Follows(env, w, e, next) && Marked(next.data)
    ensures || Unfinished(next)
            || (e.Release? && Unfinished(w) && PastMarker(w))
            || (Marked(w.data) && !w.holder.Restoring?)
  {
    RestoringAt(w);
    RestoringAt(next);
  }

  lemma MarkedAt(env: Env, ws: seq<World>, events: seq<Event>, n: nat)
    requires Honest(env) && IsRun(env, ws, events) && n < |events| && Marked(ws[n + 1].data)
    ensures || Unfinished(ws[n + 1])
            || Abandoned(ws, events, n)
            || (Marked(ws[n].data) && !ws[n].holder.Restoring? && !Finished(ws, events, n))
  {
    RunIsOnPlan(env, ws, events, n);
    RunIsOnPlan(env, ws, events, n + 1);
    assert StepAt(env, ws, events, n);
    StepMarks(env, ws[n], events[n], ws[n + 1]);
  }

  lemma LeftMarkedLonger(ws: seq<World>, events: seq<Event>, i: nat, j: nat)
    requires LeftMarked(ws, events, i, j) && !Finished(ws, events, j)
    ensures LeftMarked(ws, events, i, j + 1)
  {
    var k: nat :| i <= k < j && Abandoned(ws, events, k) && NoneFinished(ws, events, k + 1, j);
    assert NoneFinished(ws, events, k + 1, j + 1);
  }

  lemma LeftMarkedNow(ws: seq<World>, events: seq<Event>, i: nat, k: nat)
    requires i <= k && Abandoned(ws, events, k)
    ensures LeftMarked(ws, events, i, k + 1)
  {
    assert NoneFinished(ws, events, k + 1, k + 1);
  }

  lemma {:induction false} MarkedComesFrom(env: Env, ws: seq<World>, events: seq<Event>, i: nat, n: nat)
    requires Honest(env) && IsRun(env, ws, events) && i <= n < |ws|
    requires !Marked(ws[i].data) && Marked(ws[n].data)
    ensures Unfinished(ws[n]) || LeftMarked(ws, events, i, n)
  {
    MarkedAt(env, ws, events, n - 1);
    if Abandoned(ws, events, n - 1) {
      LeftMarkedNow(ws, events, i, n - 1);
    } else if !Unfinished(ws[n]) {
      MarkedComesFrom(env, ws, events, i, n - 1);
      LeftMarkedLonger(ws, events, i, n - 1);
    }
  }

  // ----------------------------------------------------------- how long it stays

  /** Marked, and any restore under way found it so and is short of its end. */
  ghost predicate MarkedThroughout(w: World) {
    Marked(w.data) && (w.holder.Restoring? ==> Marked(w.holder.base) && w.holder.done < |w.holder.script|)
  }

  lemma StepKeepsMark(env: Env, w: World, e: Event, next: World)
    requires OnPlan(w) && OnPlan(next) && Follows(env, w, e, next)
    requires MarkedThroughout(w) && !Finishing(w, e)
    ensures MarkedThroughout(next)
  {
    RestoringAt(w);
    RestoringAt(next);
  }

  lemma {:induction false} StaysMarked(env: Env, ws: seq<World>, events: seq<Event>, k: nat, n: nat)
    requires Honest(env) && IsRun(env, ws, events) && k < n < |ws|
    requires Abandoned(ws, events, k) && NoneFinished(ws, events, k + 1, n)
    ensures MarkedThroughout(ws[n])
  {
    assert StepAt(env, ws, events, n - 1);
    if k + 1 < n {
      StaysMarked(env, ws, events, k, n - 1);
      RunIsOnPlan(env, ws, events, n - 1);
      RunIsOnPlan(env, ws, events, n);
      assert !Finished(ws, events, n - 1);
      StepKeepsMark(env, ws[n - 1], events[n - 1], ws[n]);
    } else {
      RunIsOnPlan(env, ws, events, k);
      RestoringAt(ws[k]);
    }
  }

  /**
   * From an unmarked moment on, and whenever no restore holds the lock, the
   * marker is there exactly when a restore was abandoned since and none has
   * finished after it.
   */
  lemma MarkedExactly(env: Env, ws: seq<World>, events: seq<Event>, i: nat, n: nat)
    requires Honest(env) && IsRun(env, ws, events) && i <= n < |ws|
    requires !Marked(ws[i].data) && !ws[n].holder.Restoring?
    ensures Marked(ws[n].data) <==> LeftMarked(ws, events, i, n)
  {
    if Marked(ws[n].data) {
      MarkedComesFrom(env, ws, events, i, n);
    }
    if LeftMarked(ws, events, i, n) {
      var k: nat :| i <= k < n && Abandoned(ws, events, k) && NoneFinished(ws, events, k + 1, n);
      StaysMarked(env, ws, events, k, n);
    }
  }

  // ------------------------------------------------------------------- the server

  lemma {:induction false} CheckedHasACheck(env: Env, ws: seq<World>, events: seq<Event>, n: nat, server: nat)
    returns (i: nat)
    requires IsRun(env, ws, events) && n < |ws| && server in ws[n].checked
    ensures i < n && events[i] == ServerCheck(server)
  {
    assert StepAt(env, ws, events, n - 1);
    if events[n - 1] == ServerCheck(server) {
      i := n - 1;
    } else {
      CheckedBefore(env, ws[n - 1], events[n - 1], ws[n], server);
      i := CheckedHasACheck(env, ws, events, n - 1, server);
    }
  }

  lemma CheckedBefore(env: Env, w: World, e: Event, next: World, server: nat)
    requires Follows(env, w, e, next) && server in next.checked && e != ServerCheck(server)
    ensures server in w.checked
  {
  }

  /** A server took the lock at `j` and has not let go of it by `n`. */
  ghost predicate Holds(events: seq<Event>, j: nat, n: nat) {
    j < n <= |events| && events[j].ServerLock? && forall k :: j < k < n ==> !events[k].Release?
  }

  lemma {:induction false} ServerKeepsLock(env: Env, ws: seq<World>, events: seq<Event>, j: nat, n: nat)
    requires IsRun(env, ws, events) && Holds(events, j, n)
    ensures ws[n].holder.Server? && (Marked(ws[n].data) <==> Marked(ws[j].data))
  {
    assert StepAt(env, ws, events, n - 1);
    if j + 1 < n {
      ServerKeepsLock(env, ws, events, j, n - 1);
      ServerStays(env, ws[n - 1], events[n - 1], ws[n]);
    }
  }

  lemma ServerStays(env: Env, w: World, e: Event, next: World)
    requires Follows(env, w, e, next) && w.holder.Server? && !e.Release?
    ensures next.holder.Server? && (Marked(next.data) <==> Marked(w.data))
  {
  }

  /**
   * Every server that holds the lock passed its checks at some earlier moment.
   * As long as it holds the lock it stands on a marked directory exactly when,
   * between that check and the lock, a restore was abandoned and none finished
   * after it; otherwise, on taking the lock, it found the directory whole.
   */
  lemma ServerStandsOnMark(env: Env, ws: seq<World>, events: seq<Event>, j: nat, n: nat) returns (i: nat)
    requires Honest(env) && IsRun(env, ws, events) && Holds(events, j, n)
    ensures i < j && events[i] == ServerCheck(events[j].server) && ws[n].holder.Server?
    ensures Marked(ws[n].data) <==> LeftMarked(ws, events, i, j)
    ensures !LeftMarked(ws, events, i, j) ==> ComponentFiles(ws[j].data) == ws[j].whole
  {
    assert StepAt(env, ws, events, j);
    i := CheckedHasACheck(env, ws, events, j, events[j].server);
    assert StepAt(env, ws, events, i);
    MarkedExactly(env, ws, events, i, j);
    ServerKeepsLock(env, ws, events, j, n);
    RunIsSound(env, ws, events, j);
  }

  lemma {:induction false} RestoringStarted(env: Env, ws: seq<World>, events: seq<Event>, i: nat, k: nat)
    requires IsRun(env, ws, events) && i <= k < |ws| && ws[k].holder.Restoring? && !ws[i].holder.Restoring?
    ensures exists s :: i <= s < k && events[s].RestoreStart?
  {
    assert StepAt(env, ws, events, k - 1);
    if ws[k - 1].holder.Restoring? {
      RestoringStarted(env, ws, events, i, k - 1);
    } else {
      OnlyStartRestores(env, ws[k - 1], events[k - 1], ws[k]);
    }
  }

  lemma OnlyStartRestores(env: Env, w: World, e: Event, next: World)
    requires Follows(env, w, e, next) && next.holder.Restoring? && !w.holder.Restoring?
    ensures e.RestoreStart?
  {
  }

  /**
   * A server between whose check and lock no restore started, none being under
   * way at the check, takes the lock of a whole directory.
   */
  lemma QuietStartIsWhole(env: Env, ws: seq<World>, events: seq<Event>, i: nat, j: nat)
    requires Honest(env) && IsRun(env, ws, events) && i < j < |events|
    requires events[i].ServerCheck? && events[j] == ServerLock(events[i].server) && !ws[i].holder.Restoring?
    requires forall k :: i <= k < j ==> !events[k].RestoreStart?
    ensures !Marked(ws[j].data) && ComponentFiles(ws[j].data) == ws[j].whole
  {
    assert StepAt(env, ws, events, i) && StepAt(env, ws, events, j);
    MarkedExactly(env, ws, events, i, j);
    RunIsSound(env, ws, events, j);
    if LeftMarked(ws, events, i, j) {
      var k: nat :| i <= k < j && Abandoned(ws, events, k) && NoneFinished(ws, events, k + 1, j);
      RestoringStarted(env, ws, events, i, k);
    }
  }
}
