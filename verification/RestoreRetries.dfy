/** Restores repeated after interruptions, possibly from different backups. */
module RestoreRetries {
  import opened Filesystem
  import opened Layout
  import opened Manifests
  import opened Restores
  import opened RestoreSafety
  import opened RestoreEffect

  /** One run of the restore command that got as far as `cut` operations. */
  datatype Attempt = Attempt(os: System, source: Tree, manifest: Manifest, staging: string, note: Bytes, cut: nat)

  function ScriptOf(env: Env, t: Tree, a: Attempt): seq<Op> {
    RestoreScript(env, a.os, t, a.source, a.manifest, a.staging, a.note)
  }

  ghost predicate Possible(env: Env, t: Tree, a: Attempt) {
    && Lawful(a.os) && IsStagingName(a.staging)
    && a.cut <= |ScriptOf(env, t, a)| && Executes(t, ScriptOf(env, t, a)[..a.cut])
  }

  function AfterAttempt(env: Env, t: Tree, a: Attempt): Tree {
    if a.cut <= |ScriptOf(env, t, a)| then After(t, ScriptOf(env, t, a)[..a.cut]) else t
  }

  function AfterAttempts(env: Env, t: Tree, attempts: seq<Attempt>): Tree
    decreases |attempts|
  {
    if attempts == [] then t else AfterAttempts(env, AfterAttempt(env, t, attempts[0]), attempts[1..])
  }

  ghost predicate AllPossible(env: Env, t: Tree, attempts: seq<Attempt>)
    decreases |attempts|
  {
    attempts == []
    || (Possible(env, t, attempts[0]) && AllPossible(env, AfterAttempt(env, t, attempts[0]), attempts[1..]))
  }

  /** Staging directories are there only under a marker. */
  ghost predicate StagingIsMarked(t: Tree) {
    [RESTORE_MARKER] in t || NoStaging(t)
  }

  lemma OpenedHasNoStaging(os: System, t: Tree)
    requires Lawful(os) && WellFormed(t) && StagingIsMarked(t) && Executes(t, OpeningOps(os, t))
    ensures NoStaging(After(t, OpeningOps(os, t)))
  {
    if [RESTORE_MARKER] in t {
      OpeningEffect(os, t);
    } else {
      OpeningLeavesUntouched(os, t, OpeningOps(os, t));
    }
  }

  /** Staging directories of other names are no business of what happens under the marker. */
  lemma TailLeavesOthers(env: Env, v: Tree, a: Attempt, name: string)
    requires Lawful(a.os) && IsStagingName(name) && name != a.staging
    requires Executes(v, TailOps(env, a.os, v, a.source, a.manifest, a.staging, a.note))
    ensures SameUnder(v, After(v, TailOps(env, a.os, v, a.source, a.manifest, a.staging, a.note)), name)
  {
    StagingNamesDiffer();
    TailTouches(env, a.os, v, a.source, a.manifest, a.staging, a.note, name);
    Frame(v, TailOps(env, a.os, v, a.source, a.manifest, a.staging, a.note), name);
  }

  lemma TailAddsNoStaging(env: Env, v: Tree, a: Attempt, u: Tree)
    requires Lawful(a.os) && NoStaging(v) && Vacant(u, [a.staging])
    requires var tail := TailOps(env, a.os, v, a.source, a.manifest, a.staging, a.note);
             Executes(v, tail) && u == After(v, tail)
    ensures NoStaging(u)
  {
    forall name | IsStagingName(name) && name != a.staging ensures SameUnder(v, u, name) {
      TailLeavesOthers(env, v, a, name);
    }
    forall q | q in u && q != [] ensures !IsStagingName(q[0]) {
      assert q[0] == a.staging ==> [a.staging] <= q;
      assert IsStagingName(q[0]) && q[0] != a.staging ==> SameAt(v, u, q);
    }
  }

  lemma CompletedHasNoStaging(env: Env, t: Tree, a: Attempt)
    requires Lawful(a.os) && IsStagingName(a.staging) && WellFormed(t) && StagingIsMarked(t)
    requires Executes(t, ScriptOf(env, t, a))
    ensures NoStaging(After(t, ScriptOf(env, t, a)))
  {
    var opening := OpeningOps(a.os, t);
    var v := After(t, opening);
    var tail := TailOps(env, a.os, v, a.source, a.manifest, a.staging, a.note);
    AfterConcat(t, opening, tail);
    OpenedHasNoStaging(a.os, t);
    RestoreCompleted(env, a.os, t, a.source, a.manifest, a.staging, a.note);
    TailAddsNoStaging(env, v, a, After(v, tail));
  }

  /** Unmarked, a staging directory of another name outlives the whole restore. */
  lemma UnmarkedStagingSurvives(env: Env, t: Tree, a: Attempt, q: Path)
    requires Lawful(a.os) && WellFormed(t) && [RESTORE_MARKER] !in t && Executes(t, ScriptOf(env, t, a))
    requires IsStagingName(a.staging) && q in t && q != [] && IsStagingName(q[0])
    ensures q[0] != a.staging
    ensures q in After(t, ScriptOf(env, t, a)) && After(t, ScriptOf(env, t, a))[q] == t[q]
  {
    var opening := OpeningOps(a.os, t);
    var v := After(t, opening);
    var tail := TailOps(env, a.os, v, a.source, a.manifest, a.staging, a.note);
    AfterConcat(t, opening, tail);
    OpeningLeavesUntouched(a.os, t, opening);
    TopPresent(t, q);
    StagingWasFree(env, a.os, v, a.source, a.manifest, a.staging, a.note);
    TailLeavesOthers(env, v, a, q[0]);
    assert SameAt(v, After(v, tail), q);
  }

  /** A completed restore leaves no staging directory exactly when those there were marked. */
  lemma NoStagingExactly(env: Env, t: Tree, a: Attempt)
    requires Lawful(a.os) && IsStagingName(a.staging) && WellFormed(t) && Executes(t, ScriptOf(env, t, a))
    ensures NoStaging(After(t, ScriptOf(env, t, a))) <==> StagingIsMarked(t)
  {
    if StagingIsMarked(t) {
      CompletedHasNoStaging(env, t, a);
    } else {
      var q: Path :| q in t && q != [] && IsStagingName(q[0]);
      UnmarkedStagingSurvives(env, t, a, q);
    }
  }

  lemma AttemptKeeps(env: Env, t: Tree, a: Attempt)
    requires WellFormed(t) && Possible(env, t, a)
    ensures WellFormed(AfterAttempt(env, t, a))
    ensures StagingIsMarked(t) ==> StagingIsMarked(AfterAttempt(env, t, a))
    ensures forall name :: !RestoreOwns(name) ==> SameUnder(t, AfterAttempt(env, t, a), name)
  {
    var script, done := ScriptOf(env, t, a), ScriptOf(env, t, a)[..a.cut];
    AfterWellFormed(t, done);
    AttemptKeepsMarked(env, t, a);
    forall name | !RestoreOwns(name) ensures SameUnder(t, After(t, done), name) {
      RestoreTouchesOnlyItsOwn(env, a.os, t, a.source, a.manifest, a.staging, a.note, name);
      assert forall op :: op in done ==> op in script;
      Frame(t, done, name);
    }
  }

  lemma AttemptKeepsMarked(env: Env, t: Tree, a: Attempt)
    requires WellFormed(t) && Possible(env, t, a)
    ensures StagingIsMarked(t) ==> StagingIsMarked(AfterAttempt(env, t, a))
  {
    var script, done := ScriptOf(env, t, a), ScriptOf(env, t, a)[..a.cut];
    RestoreInterrupted(env, a.os, t, a.source, a.manifest, a.staging, a.note, done);
    if done == script && StagingIsMarked(t) {
      CompletedHasNoStaging(env, t, a);
    }
  }

  lemma {:induction false} AttemptsKeep(env: Env, t: Tree, attempts: seq<Attempt>)
    requires WellFormed(t) && AllPossible(env, t, attempts)
    ensures WellFormed(AfterAttempts(env, t, attempts))
    ensures StagingIsMarked(t) ==> StagingIsMarked(AfterAttempts(env, t, attempts))
    ensures forall name :: !RestoreOwns(name) ==> SameUnder(t, AfterAttempts(env, t, attempts), name)
    decreases |attempts|
  {
    if attempts != [] {
      var u := AfterAttempt(env, t, attempts[0]);
      AttemptKeeps(env, t, attempts[0]);
      AttemptsKeep(env, u, attempts[1..]);
      var w := AfterAttempts(env, u, attempts[1..]);
      forall name | !RestoreOwns(name) ensures SameUnder(t, w, name) {
        SameTrans(t, u, w, name);
      }
    }
  }

  lemma SameTrans(t: Tree, u: Tree, w: Tree, name: string)
    requires SameUnder(t, u, name) && SameUnder(u, w, name)
    ensures SameUnder(t, w, name)
  {
    forall p: Path | p != [] && p[0] == name ensures SameAt(t, w, p) {
      assert SameAt(t, u, p) && SameAt(u, w, p);
    }
  }

  /**
   * However many restores were interrupted before it, and whichever backups they
   * read, a restore that succeeds leaves what a single one would have: exactly
   * its own backup's files, no marker, and every unrelated path as it was.  No
   * staging directory is left exactly when it found none outside a marker.
   */
  lemma RetriesConverge(env: Env, t: Tree, attempts: seq<Attempt>, last: Attempt)
    requires WellFormed(t) && AllPossible(env, t, attempts)
    requires var w := AfterAttempts(env, t, attempts);
             Possible(env, w, last) && last.cut == |ScriptOf(env, w, last)|
    ensures var w := AfterAttempts(env, t, attempts);
            var u := AfterAttempt(env, w, last);
            && ComponentFiles(u) == Restored(env, last.source, last.manifest)
            && [RESTORE_MARKER] !in u
            && (NoStaging(u) <==> StagingIsMarked(w)) && (StagingIsMarked(t) ==> NoStaging(u))
            && forall name :: !RestoreOwns(name) ==> SameUnder(t, u, name)
  {
    var w := AfterAttempts(env, t, attempts);
    AttemptsKeep(env, t, attempts);
    AttemptKeeps(env, w, last);
    assert ScriptOf(env, w, last)[..last.cut] == ScriptOf(env, w, last);
    RestoreCompleted(env, last.os, w, last.source, last.manifest, last.staging, last.note);
    NoStagingExactly(env, w, last);
    var u := AfterAttempt(env, w, last);
    forall name | !RestoreOwns(name) ensures SameUnder(t, u, name) {
      SameTrans(t, w, u, name);
    }
  }

  /** The same, said as a comparison with one uninterrupted restore from the start. */
  lemma RetriesEqualOneRestore(env: Env, t: Tree, attempts: seq<Attempt>, last: Attempt, once: Attempt)
    requires WellFormed(t) && AllPossible(env, t, attempts)
    requires var w := AfterAttempts(env, t, attempts);
             Possible(env, w, last) && last.cut == |ScriptOf(env, w, last)|
    requires once.source == last.source && once.manifest == last.manifest
    requires Possible(env, t, once) && once.cut == |ScriptOf(env, t, once)|
    ensures var u, v := AfterAttempt(env, AfterAttempts(env, t, attempts), last), AfterAttempt(env, t, once);
            && ComponentFiles(u) == ComponentFiles(v)
            && forall name :: !RestoreOwns(name) ==> SameUnder(u, v, name)
  {
    RetriesConverge(env, t, attempts, last);
    RetriesConverge(env, t, [], once);
    var u, v := AfterAttempt(env, AfterAttempts(env, t, attempts), last), AfterAttempt(env, t, once);
    forall name | !RestoreOwns(name) ensures SameUnder(u, v, name) {
      forall p: Path | p != [] && p[0] == name ensures SameAt(u, v, p) {
        assert SameAt(t, u, p) && SameAt(t, v, p);
      }
    }
  }
}
