/** What a data directory may look like when a restore is interrupted anywhere. */
module RestoreSafety {
  import opened Sequences
  import opened Filesystem
  import opened Layout
  import opened Copying
  import opened Manifests
  import opened Restores

  // ------------------------------------------------------------------- frame

  lemma {:induction false} RemoveAllTouches(os: System, t: Tree, roots: seq<Path>, name: string)
    requires Lawful(os) && forall root :: root in roots ==> root != [] && root[0] != name
    ensures NoneTouch(RemoveAllOps(os, t, roots), name)
    decreases |roots|
  {
    if roots != [] {
      assert roots[0] in roots && forall root :: root in roots[1..] ==> root in roots;
      RemoveTouchesOnly(os, t, roots[0], name);
      RemoveAllTouches(os, After(t, RemoveOps(os, t, roots[0])), roots[1..], name);
    }
  }

  lemma ClearTouches(os: System, t: Tree, name: string)
    requires Lawful(os) && name !in COMPONENTS && !IsStagingName(name)
    ensures NoneTouch(ClearOps(os, t), name)
  {
    if [RESTORE_MARKER] in t {
      var components := RemoveAllOps(os, t, COMPONENT_ROOTS);
      var u := After(t, components);
      RemoveAllTouches(os, t, COMPONENT_ROOTS, name);
      RemoveAllTouches(os, u, StaleRoots(os.names(u, [])), name);
    }
  }

  lemma InstallOneTouches(os: System, t: Tree, staging: string, component: string, name: string)
    requires Lawful(os) && name != staging && name != component
    ensures NoneTouch(InstallOne(os, t, staging, component), name)
  {
    var make := if [staging, component] in t then [] else [MakeDirs([staging, component])];
    RemoveTouchesOnly(os, After(t, make), [component], name);
  }

  lemma {:induction false} InstallTouches(os: System, t: Tree, staging: string, components: seq<string>, name: string)
    requires Lawful(os) && name != staging && name !in components
    ensures NoneTouch(InstallOps(os, t, staging, components), name)
    decreases |components|
  {
    if components != [] {
      var first := InstallOne(os, t, staging, components[0]);
      InstallOneTouches(os, t, staging, components[0], name);
      InstallTouches(os, After(t, first), staging, components[1..], name);
    }
  }

  lemma StageTouches(env: Env, os: System, source: Tree, m: Manifest, staging: string, name: string)
    requires name != staging
    ensures NoneTouch(StageOps(env, os, source, m, staging), name)
  {
    CopiesTouch(os, [staging], RestoreCopies(env, source, m, m.files), name);
  }

  /** Between the marker's creation and its removal, only its own text is appended to it. */
  ghost predicate Spares(ops: seq<Op>, name: string) {
    forall op :: op in ops ==> !Touches(op, name) || op.Append?
  }

  lemma {:induction false} SparedStays(t: Tree, ops: seq<Op>, name: string)
    requires Executes(t, ops) && Spares(ops, name) && [name] in t
    ensures [name] in After(t, ops)
    decreases |ops|
  {
    if ops != [] {
      assert ops[0] in ops;
      assert forall op :: op in ops[1..] ==> op in ops;
      if !Touches(ops[0], name) {
        FrameOne(t, ops[0], name);
        assert SameAt(t, Apply(t, ops[0]), [name]);
      }
      SparedStays(Apply(t, ops[0]), ops[1..], name);
    }
  }

  lemma {:induction false} AppendsAreAppends(os: System, p: Path, data: Bytes, at: nat)
    requires at <= |data|
    ensures forall op :: op in Appends(os, p, data, at) ==> op.Append?
    decreases |data| - at
  {
    if at < |data| {
      AppendsAreAppends(os, p, data, at + Chunk(os, data, at));
    }
  }

  lemma MarkedSpares(env: Env, os: System, t: Tree, source: Tree, m: Manifest, staging: string, note: Bytes)
    requires Lawful(os) && IsStagingName(staging)
    ensures Spares(MarkedOps(env, os, t, source, m, staging, note), RESTORE_MARKER)
  {
    NamesDiffer();
    StagingNamesDiffer();
    var stage := Appends(os, [RESTORE_MARKER], note, 0) + StageOps(env, os, source, m, staging);
    var u := After(t, stage);
    AppendsAreAppends(os, [RESTORE_MARKER], note, 0);
    StageTouches(env, os, source, m, staging, RESTORE_MARKER);
    InstallTouches(os, u, staging, COMPONENTS, RESTORE_MARKER);
    RemoveTouchesOnly(os, After(u, InstallOps(os, u, staging, COMPONENTS)), [staging], RESTORE_MARKER);
  }

  lemma MarkedTouches(env: Env, os: System, t: Tree, source: Tree, m: Manifest, staging: string, note: Bytes,
                      name: string)
    requires Lawful(os) && name != staging && name !in COMPONENTS && name != RESTORE_MARKER
    ensures NoneTouch(MarkedOps(env, os, t, source, m, staging, note), name)
  {
    var stage := Appends(os, [RESTORE_MARKER], note, 0) + StageOps(env, os, source, m, staging);
    var u := After(t, stage);
    AppendsTouch(os, [RESTORE_MARKER], note, 0, name);
    StageTouches(env, os, source, m, staging, name);
    InstallTouches(os, u, staging, COMPONENTS, name);
    RemoveTouchesOnly(os, After(u, InstallOps(os, u, staging, COMPONENTS)), [staging], name);
  }

  lemma TailTouches(env: Env, os: System, t: Tree, source: Tree, m: Manifest, staging: string, note: Bytes,
                    name: string)
    requires Lawful(os) && name != staging && name !in COMPONENTS && name != RESTORE_MARKER
    ensures NoneTouch(TailOps(env, os, t, source, m, staging, note), name)
  {
    MarkedTouches(env, os, Apply(t, Truncate([RESTORE_MARKER])), source, m, staging, note, name);
  }

  lemma OpeningTouches(os: System, t: Tree, name: string)
    requires Lawful(os) && name !in COMPONENTS && !IsStagingName(name)
    ensures NoneTouch(OpeningOps(os, t), name)
  {
    ClearTouches(os, Apply(t, MakeDirs([])), name);
  }

  /** No restore, finished or not, changes anything it does not own. */
  lemma RestoreTouchesOnlyItsOwn(env: Env, os: System, t: Tree, source: Tree, m: Manifest, staging: string,
                                 note: Bytes, name: string)
    requires Lawful(os) && IsStagingName(staging) && !RestoreOwns(name)
    ensures NoneTouch(RestoreScript(env, os, t, source, m, staging, note), name)
  {
    OpeningTouches(os, t, name);
    TailTouches(env, os, After(t, OpeningOps(os, t)), source, m, staging, note, name);
  }

  // ----------------------------------------------------------- interruptions

  lemma PrefixKeeps(t: Tree, ops: seq<Op>, done: seq<Op>, name: string)
    requires done <= ops && Executes(t, done) && NoneTouch(ops, name) && [name] in t
    ensures [name] in After(t, done)
  {
    assert forall op :: op in done ==> op in ops;
    Frame(t, done, name);
    assert SameAt(t, After(t, done), [name]);
  }

  lemma PrefixSpares(t: Tree, ops: seq<Op>, done: seq<Op>, name: string)
    requires done <= ops && Executes(t, done) && Spares(ops, name) && [name] in t
    ensures [name] in After(t, done)
  {
    assert forall op :: op in done ==> op in ops;
    SparedStays(t, done, name);
  }

  /** Create, work, remove: only a run that reached the removal leaves nothing behind. */
  lemma BracketInterrupted(t: Tree, work: seq<Op>, done: seq<Op>, name: string)
    requires Spares(work, name) && Executes(t, done) && done != []
    requires done <= [Truncate([name])] + (work + [Unlink([name])])
    ensures [name] in After(t, done) || done == [Truncate([name])] + (work + [Unlink([name])])
  {
    var all := [Truncate([name])] + (work + [Unlink([name])]);
    var u, rest := Apply(t, Truncate([name])), done[1..];
    assert done[0] == all[0];
    assert all[1..] == work + [Unlink([name])];
    assert rest <= all[1..];
    PrefixSplit(rest, work, [Unlink([name])]);
    if rest <= work {
      PrefixSpares(u, work, rest, name);
    } else {
      assert rest == work + [Unlink([name])];
      assert done == [done[0]] + rest;
    }
  }

  lemma OpenedBracketInterrupted(t: Tree, opening: seq<Op>, work: seq<Op>, done: seq<Op>, name: string)
    requires Spares(work, name) && Executes(t, done)
    requires done <= opening + ([Truncate([name])] + (work + [Unlink([name])]))
    ensures || done <= opening
            || [name] in After(t, done)
            || done == opening + ([Truncate([name])] + (work + [Unlink([name])]))
  {
    PrefixSplit(done, opening, [Truncate([name])] + (work + [Unlink([name])]));
    if !(done <= opening) {
      var rest := done[|opening|..];
      AfterConcat(t, opening, rest);
      BracketInterrupted(After(t, opening), work, rest, name);
    }
  }

  lemma GuardedOpening(t: Tree, holds: bool, done: seq<Op>)
    requires done <= [MakeDirs([])] + Guard(holds) && Executes(t, done)
    ensures After(t, done) == t || After(t, done) == Apply(t, MakeDirs([]))
  {
    AfterSnoc(t, [MakeDirs([])], Stop);
    AfterOne(t, MakeDirs([]));
    assert |done| == 2 ==> done == [MakeDirs([])] + [Stop];
    assert |done| == 1 ==> done == [MakeDirs([])];
  }

  lemma OpeningLeavesUntouched(os: System, t: Tree, done: seq<Op>)
    requires done <= OpeningOps(os, t) && Executes(t, done)
    requires [RESTORE_MARKER] !in t
    ensures After(t, done) == t || After(t, done) == Apply(t, MakeDirs([]))
  {
    var u := Apply(t, MakeDirs([]));
    assert [RESTORE_MARKER] !in u;
    assert ClearOps(os, u) == Guard(ComponentsEmpty(u));
    GuardedOpening(t, ComponentsEmpty(u), done);
  }

  ghost predicate Untouched(t: Tree, u: Tree) {
    [RESTORE_MARKER] !in t && (u == t || u == Apply(t, MakeDirs([])))
  }

  /**
   * Crash safety of a restore: stopped anywhere, it leaves the marker in place,
   * unless it had not yet changed anything or had already finished.
   */
  lemma RestoreInterrupted(env: Env, os: System, t: Tree, source: Tree, m: Manifest, staging: string, note: Bytes,
                           done: seq<Op>)
    requires Lawful(os) && IsStagingName(staging)
    requires done <= RestoreScript(env, os, t, source, m, staging, note) && Executes(t, done)
    ensures || [RESTORE_MARKER] in After(t, done)
            || Untouched(t, After(t, done))
            || done == RestoreScript(env, os, t, source, m, staging, note)
  {
    var opening := OpeningOps(os, t);
    var u := Apply(After(t, opening), Truncate([RESTORE_MARKER]));
    MarkedSpares(env, os, u, source, m, staging, note);
    OpenedBracketInterrupted(t, opening, MarkedOps(env, os, u, source, m, staging, note), done, RESTORE_MARKER);
    if done <= opening {
      OpeningInterrupted(os, t, done);
    }
  }

  lemma OpeningKeepsOut(os: System, t: Tree, done: seq<Op>)
    requires Lawful(os) && done <= OpeningOps(os, t) && Executes(t, done)
    ensures [RESTORE_MARKER] in After(t, done) <==> [RESTORE_MARKER] in t
    ensures Truncate([RESTORE_MARKER]) !in done
  {
    NamesDiffer();
    StagingNamesDiffer();
    OpeningTouches(os, t, RESTORE_MARKER);
    assert forall op :: op in done ==> op in OpeningOps(os, t);
    assert Touches(Truncate([RESTORE_MARKER]), RESTORE_MARKER);
    Frame(t, done, RESTORE_MARKER);
    assert SameAt(t, After(t, done), [RESTORE_MARKER]);
  }

  /** Short of its end, a restore leaves the marker exactly when it found one or has put its own down. */
  lemma MarkedByItself(env: Env, os: System, t: Tree, source: Tree, m: Manifest, staging: string, note: Bytes,
                       done: seq<Op>)
    requires Lawful(os) && IsStagingName(staging)
    requires done < RestoreScript(env, os, t, source, m, staging, note) && Executes(t, done)
    ensures [RESTORE_MARKER] in After(t, done) <==> [RESTORE_MARKER] in t || Truncate([RESTORE_MARKER]) in done
  {
    var opening := OpeningOps(os, t);
    var u := Apply(After(t, opening), Truncate([RESTORE_MARKER]));
    MarkedSpares(env, os, u, source, m, staging, note);
    OpenedBracketInterrupted(t, opening, MarkedOps(env, os, u, source, m, staging, note), done, RESTORE_MARKER);
    if done <= opening {
      OpeningKeepsOut(os, t, done);
    } else {
      assert done[|opening|] == Truncate([RESTORE_MARKER]) && done[|opening|] in done;
    }
  }

  lemma OpeningInterrupted(os: System, t: Tree, done: seq<Op>)
    requires Lawful(os) && done <= OpeningOps(os, t) && Executes(t, done)
    ensures [RESTORE_MARKER] in After(t, done) || Untouched(t, After(t, done))
  {
    if [RESTORE_MARKER] in t {
      NamesDiffer();
      StagingNamesDiffer();
      OpeningTouches(os, t, RESTORE_MARKER);
      PrefixKeeps(t, OpeningOps(os, t), done, RESTORE_MARKER);
    } else {
      OpeningLeavesUntouched(os, t, done);
    }
  }
}
