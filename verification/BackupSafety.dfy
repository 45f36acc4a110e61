/** What a destination may hold while, and after, a backup to it was interrupted anywhere. */
module BackupSafety {
  import opened Wrappers
  import opened Sequences
  import opened Text
  import opened Filesystem
  import opened Walking
  import opened Layout
  import opened Copying
  import opened Manifests
  import opened Verification
  import opened Backups
  import opened BackupContents
  import opened Filing

  type Snapshot = map<Path, Bytes>

  // -------------------------------------------------------------- preparing

  ghost predicate OnlyClears(ops: seq<Op>) {
    forall op :: op in ops ==> op.Unlink? || op == MakeDirs([])
  }

  lemma PrepareOnlyClears(os: System, dest: Tree, replace: bool, done: seq<Op>)
    requires done <= PrepareOps(os, dest, replace) && Executes(dest, done)
    ensures OnlyClears(done)
  {
    if [Stop] == PrepareOps(os, dest, replace) {
      assert done == [] || done == [Stop];
    } else {
      assert forall op :: op in done ==> op in PrepareOps(os, dest, replace);
    }
  }

  /** Clearing takes files away; it never adds or alters one. */
  lemma {:induction false} ClearingOnlyRemoves(t: Tree, ops: seq<Op>, p: Path)
    requires OnlyClears(ops) && Executes(t, ops)
    ensures IsFile(After(t, ops), p) ==> IsFile(t, p) && After(t, ops)[p] == t[p]
    ensures p != [] && p !in t ==> p !in After(t, ops)
    decreases |ops|
  {
    if ops != [] {
      assert ops[0] in ops;
      assert forall op :: op in ops[1..] ==> op in ops;
      ClearingOnlyRemoves(Apply(t, ops[0]), ops[1..], p);
    }
  }

  lemma MakeRoot(t: Tree)
    requires forall q :: q in t ==> q == [] && t[q].Dir?
    ensures Apply(t, MakeDirs([])) == EMPTY
    ensures [] in t ==> t == EMPTY
  {
    var u := Apply(t, MakeDirs([]));
    assert forall q :: q in u <==> q == [];
    if [] in t {
      assert t.Keys == {[]};
    }
  }

  lemma ClearedToEmpty(os: System, dest: Tree)
    requires Lawful(os)
    ensures After(dest, Unlinks(os.removal(dest, [])) + [MakeDirs([])]) == EMPTY
  {
    var order := os.removal(dest, []);
    assert IsRemovalOrder(dest, [], order);
    AfterUnlinks(dest, order);
    AfterSnoc(dest, Unlinks(order), MakeDirs([]));
    MakeRoot(After(dest, Unlinks(order)));
  }

  /** Whatever was there, a prepared destination is an empty directory. */
  lemma PrepareLeavesEmpty(os: System, dest: Tree, replace: bool)
    requires Lawful(os) && WellFormed(dest) && Executes(dest, PrepareOps(os, dest, replace))
    ensures After(dest, PrepareOps(os, dest, replace)) == EMPTY
  {
    if [] !in dest {
      VacantBelow(dest, []);
      AfterOne(dest, MakeDirs([]));
      MakeRoot(dest);
    } else if dest[[]].Dir? && Childless(dest, []) {
      MakeRoot(dest);
    } else if !Complete(dest) && [INCOMPLETE] in dest && replace {
      ClearedToEmpty(os, dest);
    }
  }

  // ---------------------------------------------------------------- copying

  lemma ComponentTouches(os: System, data: Tree, component: string, name: string)
    requires Lawful(os) && WellFormed(data) && component in COMPONENTS && name != component
    ensures NoneTouch(ComponentOps(os, data, component), name)
  {
    WalkFilesIsComplete(os, data, [component]);
    var copies := ComponentCopies(os, data, component);
    forall c | c in copies ensures Split(c.path, '/')[0] != name {
      var p := CopiesOfOnly(data, WalkFiles(os, data, [component]).value, c);
      assert p[0] == component;
      CopyOfStaysInComponent(data, p);
    }
    CopiesTouch(os, [], copies, name);
  }

  lemma {:induction false} ComponentsTouch(os: System, data: Tree, components: seq<string>, name: string)
    requires Lawful(os) && WellFormed(data)
    requires forall c :: c in components ==> c in COMPONENTS && c != name
    ensures NoneTouch(ComponentsOps(os, data, components), name)
  {
    if components != [] {
      assert components[0] in components;
      ComponentTouches(os, data, components[0], name);
      ComponentsTouch(os, data, components[1..], name);
    }
  }

  lemma CopyPhaseTouches(os: System, settings: Settings, data: Tree, name: string)
    requires Lawful(os) && WellFormed(data) && name !in COMPONENTS && name != INCOMPLETE
    ensures NoneTouch(CopyPhase(os, settings, data), name)
  {
    AppendsTouch(os, [INCOMPLETE], INCOMPLETE_NOTE, 0, name);
    ComponentsTouch(os, data, COMPONENTS, name);
  }

  // --------------------------------------------------------------- the trust

  /** A manifest that lists exactly the files of a deployment. */
  ghost predicate Describes(env: Env, m: Manifest, data: Tree) {
    Storable(data) && EntriesOf(m) == InventoryOf(env, Slashed(data))
  }

  /** A manifest that lists exactly what one of the recorded data directories held. */
  ghost predicate Genuine(env: Env, m: Manifest, taken: set<Tree>) {
    m.formatVersion == FORMAT_VERSION && exists data :: data in taken && Describes(env, m, data)
  }

  /** No readable manifest in the directory claims anything but a recorded data directory's files. */
  ghost predicate Trustworthy(env: Env, t: Tree, taken: set<Tree>) {
    && [LEGACY_MANIFEST] !in t
    && (IsFile(t, [MANIFEST]) ==>
          var data := t[[MANIFEST]].data;
          match env.decode(data)
          case None => env.decodeLegacy(data).None?
          case Some(m) => Genuine(env, m, taken))
  }

  lemma TrustGrows(env: Env, t: Tree, taken: set<Tree>, more: set<Tree>)
    requires Trustworthy(env, t, taken) && taken <= more
    ensures Trustworthy(env, t, more)
  {
  }

  /** A manifest file that holds some of the bytes: unreadable unless it holds them all. */
  lemma PartIsTrusted(env: Env, t: Tree, m: Manifest, k: nat, taken: set<Tree>)
    requires Honest(env) && Genuine(env, m, taken) && k <= |env.encode(m)| && [LEGACY_MANIFEST] !in t
    requires [MANIFEST] in t && t[[MANIFEST]] == File(env.encode(m)[..k])
    ensures Trustworthy(env, t, taken)
  {
    var data := env.encode(m);
    if k == |data| {
      assert data[..k] == data;
      assert env.decode(env.encode(m)) == Some(m);
    } else {
      assert env.decode(env.encode(m)[..k]).None?;
    }
  }

  lemma WritingKeepsTrust(env: Env, os: System, t: Tree, m: Manifest, done: seq<Op>, taken: set<Tree>)
    requires Honest(env) && Genuine(env, m, taken) && [LEGACY_MANIFEST] !in t
    requires done != [] && done <= WriteOps(os, [MANIFEST], env.encode(m))
    ensures Trustworthy(env, After(t, done), taken)
  {
    NamesDiffer();
    var data := env.encode(m);
    var u := Apply(t, Truncate([MANIFEST]));
    var write := WriteOps(os, [MANIFEST], data);
    assert done[0] == write[0] && write[1..] == Appends(os, [MANIFEST], data, 0);
    assert done[1..] <= write[1..];
    var k := AppendsInterrupted(os, u, [MANIFEST], data, 0, done[1..]);
    PartIsTrusted(env, After(t, done), m, k, taken);
  }

  lemma UnmarkingKeepsTrust(env: Env, t: Tree, taken: set<Tree>)
    requires Trustworthy(env, t, taken)
    ensures Trustworthy(env, t - {[INCOMPLETE]}, taken)
  {
    NamesDiffer();
  }

  lemma PublishKeepsTrust(env: Env, os: System, t: Tree, m: Manifest, done: seq<Op>, taken: set<Tree>)
    requires Honest(env) && Genuine(env, m, taken)
    requires [MANIFEST] !in t && [LEGACY_MANIFEST] !in t
    requires done <= WriteOps(os, [MANIFEST], env.encode(m)) + [Unlink([INCOMPLETE])]
    ensures Trustworthy(env, After(t, done), taken)
  {
    var write := WriteOps(os, [MANIFEST], env.encode(m));
    AllButLast(done, write, Unlink([INCOMPLETE]));
    if done == [] {
    } else if done <= write {
      WritingKeepsTrust(env, os, t, m, done, taken);
    } else {
      WritingKeepsTrust(env, os, t, m, write, taken);
      PublishedKeepsTrust(env, t, write, taken);
    }
  }

  lemma AllButLast<T>(done: seq<T>, front: seq<T>, last: T)
    requires done <= front + [last]
    ensures done <= front || done == front + [last]
  {
  }

  lemma PublishedKeepsTrust(env: Env, t: Tree, write: seq<Op>, taken: set<Tree>)
    requires Trustworthy(env, After(t, write), taken)
    ensures Trustworthy(env, After(t, write + [Unlink([INCOMPLETE])]), taken)
  {
    AfterSnoc(t, write, Unlink([INCOMPLETE]));
    UnmarkingKeepsTrust(env, After(t, write), taken);
  }

  /**
   * At every interruption of a backup, whatever readable manifest the
   * destination holds lists exactly the files of a recorded deployment: an
   * earlier one while an abandoned attempt is being cleared, this one's once
   * published.
   */
  lemma BackupKeepsTrust(env: Env, os: System, settings: Settings, data: Tree, dest: Tree, replace: bool,
                         done: seq<Op>, taken: set<Tree>)
    requires Honest(env) && Lawful(os) && WellFormed(data) && WellFormed(dest)
    requires done <= BackupScript(env, os, settings, data, dest, replace) && Executes(dest, done)
    requires Trustworthy(env, dest, taken)
    ensures Trustworthy(env, After(dest, done), taken + {data})
  {
    var prepare, copy, publish := PrepareOps(os, dest, replace), CopyPhase(os, settings, data),
        PublishOps(env, os, settings, data);
    PrefixSplit(done, prepare, copy + publish);
    if done <= prepare {
      PrepareOnlyClears(os, dest, replace, done);
      ClearingOnlyRemoves(dest, done, [MANIFEST]);
      ClearingOnlyRemoves(dest, done, [LEGACY_MANIFEST]);
      assert Trustworthy(env, After(dest, done), taken);
      TrustGrows(env, After(dest, done), taken, taken + {data});
    } else {
      AfterConcat(dest, prepare, done[|prepare|..]);
      PrepareLeavesEmpty(os, dest, replace);
      CopyingKeepsTrust(env, os, settings, data, done[|prepare|..], taken + {data});
    }
  }

  lemma CopyingKeepsTrust(env: Env, os: System, settings: Settings, data: Tree, done: seq<Op>, taken: set<Tree>)
    requires Honest(env) && Lawful(os) && WellFormed(data)
    requires done <= CopyPhase(os, settings, data) + PublishOps(env, os, settings, data) && Executes(EMPTY, done)
    requires data in taken
    ensures Trustworthy(env, After(EMPTY, done), taken)
  {
    var copy, publish := CopyPhase(os, settings, data), PublishOps(env, os, settings, data);
    PrefixSplit(done, copy, publish);
    if done <= copy {
      NoManifestYet(os, settings, data, done);
    } else {
      AfterConcat(EMPTY, copy, done[|copy|..]);
      PublishingKeepsTrust(env, os, settings, data, done[|copy|..], taken);
    }
  }

  lemma PublishingKeepsTrust(env: Env, os: System, settings: Settings, data: Tree, done: seq<Op>, taken: set<Tree>)
    requires Honest(env) && Lawful(os) && WellFormed(data) && data in taken
    requires Executes(EMPTY, CopyPhase(os, settings, data)) && done <= PublishOps(env, os, settings, data)
    requires Executes(After(EMPTY, CopyPhase(os, settings, data)), done)
    ensures Trustworthy(env, After(After(EMPTY, CopyPhase(os, settings, data)), done), taken)
  {
    NoManifestYet(os, settings, data, CopyPhase(os, settings, data));
    match ManifestFor(env, os, settings, data)
    case Err(_) =>
      assert done == [] || done == [Stop];
    case Ok(m) =>
      ManifestIsGenuine(env, os, settings, data, m, taken);
      PublishKeepsTrust(env, os, After(EMPTY, CopyPhase(os, settings, data)), m, done, taken);
  }

  lemma NoManifestYet(os: System, settings: Settings, data: Tree, done: seq<Op>)
    requires Lawful(os) && WellFormed(data) && done <= CopyPhase(os, settings, data) && Executes(EMPTY, done)
    ensures [MANIFEST] !in After(EMPTY, done) && [LEGACY_MANIFEST] !in After(EMPTY, done)
  {
    NamesDiffer();
    CopyPhaseTouches(os, settings, data, MANIFEST);
    CopyPhaseTouches(os, settings, data, LEGACY_MANIFEST);
    assert forall op :: op in done ==> op in CopyPhase(os, settings, data);
    StaysAbsent(EMPTY, done, MANIFEST);
    StaysAbsent(EMPTY, done, LEGACY_MANIFEST);
  }

  lemma ManifestIsGenuine(env: Env, os: System, settings: Settings, data: Tree, m: Manifest, taken: set<Tree>)
    requires Lawful(os) && WellFormed(data) && data in taken
    requires Executes(EMPTY, CopyPhase(os, settings, data)) && ManifestFor(env, os, settings, data) == Ok(m)
    ensures Genuine(env, m, taken)
  {
    CopyPhaseMeansStorable(os, settings, data);
    ManifestDescribes(env, os, settings, data);
    assert Describes(env, m, data);
  }

  lemma StaysAbsent(t: Tree, ops: seq<Op>, name: string)
    requires Executes(t, ops) && NoneTouch(ops, name) && [name] !in t
    ensures [name] !in After(t, ops)
  {
    Frame(t, ops, name);
    assert SameAt(t, After(t, ops), [name]);
  }

  /** A copy phase that reached its end had the room for it and a deployment a backup can hold. */
  lemma CopyPhaseMeansStorable(os: System, settings: Settings, data: Tree)
    requires Lawful(os) && WellFormed(data) && Executes(EMPTY, CopyPhase(os, settings, data))
    ensures Storable(data) && SpaceSuffices(os, settings, data)
  {
    var guard, mark := Guard(SpaceSuffices(os, settings, data)), WriteOps(os, [INCOMPLETE], INCOMPLETE_NOTE);
    AfterConcat(EMPTY, guard + mark, ComponentsOps(os, data, COMPONENTS));
    AfterConcat(EMPTY, guard, mark);
    CopiedFromEmpty(os, data, guard + mark);
  }

  lemma CopiedFromEmpty(os: System, data: Tree, first: seq<Op>)
    requires Lawful(os) && WellFormed(data) && Executes(EMPTY, first)
    requires Executes(After(EMPTY, first), ComponentsOps(os, data, COMPONENTS))
    ensures Storable(data)
  {
    AfterWellFormed(EMPTY, first);
    CopiedMeansStorable(os, After(EMPTY, first), data);
  }

  // ------------------------------------------------------------- plain names

  predicate PlainOp(op: Op) {
    match op
    case Rename(_, _) => false
    case Stop => true
    case _ => PlainPath(op.path)
  }

  ghost predicate PlainOps(ops: seq<Op>) {
    forall op :: op in ops ==> PlainOp(op) || op.Unlink?
  }

  lemma {:induction false} PlainAfter(t: Tree, ops: seq<Op>)
    requires Executes(t, ops) && PlainOps(ops) && PlainComponents(t)
    ensures PlainComponents(After(t, ops))
    decreases |ops|
  {
    if ops != [] {
      var op, u := ops[0], Apply(t, ops[0]);
      assert op in ops && forall o :: o in ops[1..] ==> o in ops;
      forall p | p in ComponentFiles(u) ensures PlainPath(p) {
        assert p in ComponentFiles(t) || PlainPath(p);
      }
      PlainAfter(u, ops[1..]);
    }
  }

  lemma {:induction false} AppendsPlain(os: System, p: Path, data: Bytes, at: nat)
    requires at <= |data| && PlainPath(p)
    ensures PlainOps(Appends(os, p, data, at))
    decreases |data| - at
  {
    if at < |data| {
      AppendsPlain(os, p, data, at + Chunk(os, data, at));
    }
  }

  lemma CopyToPlain(os: System, c: Copy, to: Path)
    requires to == Target([], c) && SafeRelativePath(c.path) && PlainPath(to) && PlainPath(Parent(to))
    ensures PlainOps(CopyOps(os, [], c))
  {
    if c.data.Some? {
      AppendsPlain(os, to, c.data.value, 0);
    }
  }

  lemma SafeCopyPlain(os: System, c: Copy)
    requires SafeRelativePath(c.path)
    ensures PlainOps(CopyOps(os, [], c))
  {
    SafePathStaysInside(c.path);
    var to := Split(c.path, '/');
    assert Target([], c) == to;
    assert forall name :: name in Parent(to) ==> name in to;
    CopyToPlain(os, c, to);
  }

  /** A copy with an unsafe path performs nothing. */
  lemma UnsafeCopyStops(os: System, t: Tree, c: Copy, done: seq<Op>)
    requires !SafeRelativePath(c.path) && done <= CopyOps(os, [], c) && Executes(t, done)
    ensures done == []
  {
    assert CopyOps(os, [], c)[0] == Stop;
  }

  lemma CopyPlain(os: System, t: Tree, c: Copy, done: seq<Op>)
    requires done <= CopyOps(os, [], c) && Executes(t, done)
    ensures PlainOps(done)
  {
    if SafeRelativePath(c.path) {
      SafeCopyPlain(os, c);
      assert forall op :: op in done ==> op in CopyOps(os, [], c);
    } else {
      UnsafeCopyStops(os, t, c, done);
    }
  }

  lemma {:induction false} CopiesPlain(os: System, t: Tree, copies: seq<Copy>, done: seq<Op>)
    requires done <= CopyAllOps(os, [], copies) && Executes(t, done)
    ensures PlainOps(done)
    decreases |copies|
  {
    if copies != [] {
      var first := CopyOps(os, [], copies[0]);
      PrefixSplit(done, first, CopyAllOps(os, [], copies[1..]));
      if done <= first {
        CopyPlain(os, t, copies[0], done);
      } else {
        AfterConcat(t, first, done[|first|..]);
        CopyPlain(os, t, copies[0], first);
        CopiesPlain(os, After(t, first), copies[1..], done[|first|..]);
      }
    }
  }

  lemma ComponentPlain(os: System, t: Tree, data: Tree, component: string, done: seq<Op>)
    requires Lawful(os) && WellFormed(data) && component in COMPONENTS
    requires done <= ComponentOps(os, data, component) && Executes(t, done)
    ensures PlainOps(done)
  {
    ComponentNamesArePlain();
    var head, copies := [MakeDirs([component])] + Guard(WalkFiles(os, data, [component]).Some?),
        CopyAllOps(os, [], ComponentCopies(os, data, component));
    assert PlainOps(head);
    PrefixSplit(done, head, copies);
    if done <= head {
      assert forall op :: op in done ==> op in head;
    } else {
      AfterConcat(t, head, done[|head|..]);
      CopiesPlain(os, After(t, head), ComponentCopies(os, data, component), done[|head|..]);
    }
  }

  lemma {:induction false} ComponentsPlain(os: System, t: Tree, data: Tree, components: seq<string>, done: seq<Op>)
    requires Lawful(os) && WellFormed(data) && forall c :: c in components ==> c in COMPONENTS
    requires done <= ComponentsOps(os, data, components) && Executes(t, done)
    ensures PlainOps(done)
    decreases |components|
  {
    if components != [] {
      assert components[0] in components;
      var first := ComponentOps(os, data, components[0]);
      PrefixSplit(done, first, ComponentsOps(os, data, components[1..]));
      if done <= first {
        ComponentPlain(os, t, data, components[0], done);
      } else {
        AfterConcat(t, first, done[|first|..]);
        ComponentPlain(os, t, data, components[0], first);
        ComponentsPlain(os, After(t, first), data, components[1..], done[|first|..]);
      }
    }
  }

  lemma SplitPlain(first: seq<Op>, done: seq<Op>)
    requires first <= done && PlainOps(first) && PlainOps(done[|first|..])
    ensures PlainOps(done)
  {
    assert done == first + done[|first|..];
  }

  lemma CopyPhasePlain(os: System, settings: Settings, data: Tree, done: seq<Op>)
    requires Lawful(os) && WellFormed(data) && done <= CopyPhase(os, settings, data) && Executes(EMPTY, done)
    ensures PlainOps(done)
  {
    var head := Guard(SpaceSuffices(os, settings, data)) + WriteOps(os, [INCOMPLETE], INCOMPLETE_NOTE);
    MarkerNamesArePlain();
    AppendsPlain(os, [INCOMPLETE], INCOMPLETE_NOTE, 0);
    assert PlainOps(head);
    PrefixSplit(done, head, ComponentsOps(os, data, COMPONENTS));
    if done <= head {
      assert forall op :: op in done ==> op in head;
    } else {
      AfterConcat(EMPTY, head, done[|head|..]);
      ComponentsPlain(os, After(EMPTY, head), data, COMPONENTS, done[|head|..]);
    }
  }

  lemma PublishPlain(env: Env, os: System, settings: Settings, data: Tree)
    requires Lawful(os) && WellFormed(data)
    ensures PlainOps(PublishOps(env, os, settings, data))
  {
    match ManifestFor(env, os, settings, data)
    case Err(_) =>
    case Ok(m) =>
      MarkerNamesArePlain();
      AppendsPlain(os, [MANIFEST], env.encode(m), 0);
  }

  /** A backup never introduces a name with a backslash into its destination. */
  lemma BackupKeepsPlain(env: Env, os: System, settings: Settings, data: Tree, dest: Tree, replace: bool, done: seq<Op>)
    requires Lawful(os) && WellFormed(data) && WellFormed(dest) && PlainComponents(dest)
    requires done <= BackupScript(env, os, settings, data, dest, replace) && Executes(dest, done)
    ensures PlainComponents(After(dest, done))
  {
    var prepare, copy, publish := PrepareOps(os, dest, replace), CopyPhase(os, settings, data),
        PublishOps(env, os, settings, data);
    PrefixSplit(done, prepare, copy + publish);
    if done <= prepare {
      PrepareOnlyClears(os, dest, replace, done);
      PlainAfter(dest, done);
    } else {
      var rest := done[|prepare|..];
      AfterConcat(dest, prepare, rest);
      PrepareLeavesEmpty(os, dest, replace);
      PrefixSplit(rest, copy, publish);
      PublishPlain(env, os, settings, data);
      if rest <= copy {
        CopyPhasePlain(os, settings, data, rest);
      } else {
        ExecutesPrefix(EMPTY, copy, rest);
        CopyPhasePlain(os, settings, data, copy);
        assert forall op :: op in rest[|copy|..] ==> op in publish;
        SplitPlain(copy, rest);
      }
      PlainAfter(EMPTY, rest);
    }
  }
}
