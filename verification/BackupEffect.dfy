/** What a backup that runs to its end leaves in the destination. */
module BackupEffect {
  import opened Text
  import opened Filesystem
  import opened Layout
  import opened Copying
  import opened Manifests
  import opened Backups
  import opened Filing
  import opened BackupSafety

  /** After copying, the destination holds the note and the copies, nothing else. */
  lemma CopyPhaseEffect(os: System, settings: Settings, data: Tree)
    requires Lawful(os) && WellFormed(data) && Executes(EMPTY, CopyPhase(os, settings, data))
    ensures Files(After(EMPTY, CopyPhase(os, settings, data))) ==
            map[[INCOMPLETE] := INCOMPLETE_NOTE] + Copied([], AllCopies(os, data, COMPONENTS))
    ensures [INCOMPLETE] !in Copied([], AllCopies(os, data, COMPONENTS))
    ensures forall c :: c in AllCopies(os, data, COMPONENTS) ==> Acceptable(c)
  {
    var guard, mark, copies := Guard(SpaceSuffices(os, settings, data)),
        WriteOps(os, [INCOMPLETE], INCOMPLETE_NOTE), ComponentsOps(os, data, COMPONENTS);
    AfterConcat(EMPTY, guard + mark, copies);
    AfterConcat(EMPTY, guard, mark);
    WriteEffect(os, EMPTY, [INCOMPLETE], INCOMPLETE_NOTE);
    var u := After(EMPTY, guard + mark);
    OnlyTheNote(u, INCOMPLETE_NOTE);
    ComponentsEffect(os, u, data, COMPONENTS);
  }

  lemma OnlyTheNote(u: Tree, note: Bytes)
    requires u == EMPTY[[INCOMPLETE] := File(note)]
    ensures Files(u) == map[[INCOMPLETE] := note]
  {
  }

  lemma CopiedInside(copies: seq<Copy>, p: Path)
    requires (forall c :: c in copies ==> Acceptable(c)) && p in Copied([], copies)
    ensures InComponent(p) && |p| >= 2 && ValidPath(p) && PlainPath(p)
  {
    var i := CopiedOnly([], copies, p);
    assert copies[i] in copies;
    SafePathStaysInside(copies[i].path);
    assert p == Split(copies[i].path, '/');
  }

  lemma AllInside(copies: seq<Copy>)
    requires forall c :: c in copies ==> Acceptable(c)
    ensures forall p :: p in Copied([], copies) ==> InComponent(p)
  {
    forall p | p in Copied([], copies) ensures InComponent(p) {
      CopiedInside(copies, p);
    }
  }

  /** A finished backup: marker gone, manifest whole, and exactly the copies in the components. */
  lemma BackupPublished(env: Env, os: System, settings: Settings, data: Tree, dest: Tree, replace: bool)
    requires Lawful(os) && WellFormed(data) && WellFormed(dest)
    requires Executes(dest, BackupScript(env, os, settings, data, dest, replace))
    ensures var u := After(dest, BackupScript(env, os, settings, data, dest, replace));
            && Storable(data) && SpaceSuffices(os, settings, data)
            && ManifestFor(env, os, settings, data).Ok?
            && [INCOMPLETE] !in u && [LEGACY_MANIFEST] !in u
            && FileIs(u, [MANIFEST], env.encode(ManifestFor(env, os, settings, data).value))
            && ComponentFiles(u) == Copied([], AllCopies(os, data, COMPONENTS))
  {
    var prepare, copy, publish := PrepareOps(os, dest, replace), CopyPhase(os, settings, data),
        PublishOps(env, os, settings, data);
    AfterConcat(dest, prepare, copy + publish);
    PrepareLeavesEmpty(os, dest, replace);
    AfterConcat(EMPTY, copy, publish);
    CopyPhaseMeansStorable(os, settings, data);
    PublishEffect(env, os, settings, data);
  }

  predicate FileIs(t: Tree, p: Path, data: Bytes) {
    p in t && t[p] == File(data)
  }

  lemma PublishEffect(env: Env, os: System, settings: Settings, data: Tree)
    requires Lawful(os) && WellFormed(data) && Executes(EMPTY, CopyPhase(os, settings, data))
    requires Executes(After(EMPTY, CopyPhase(os, settings, data)), PublishOps(env, os, settings, data))
    ensures var u := After(After(EMPTY, CopyPhase(os, settings, data)), PublishOps(env, os, settings, data));
            && ManifestFor(env, os, settings, data).Ok?
            && [INCOMPLETE] !in u && [LEGACY_MANIFEST] !in u
            && FileIs(u, [MANIFEST], env.encode(ManifestFor(env, os, settings, data).value))
            && ComponentFiles(u) == Copied([], AllCopies(os, data, COMPONENTS))
  {
    var t := After(EMPTY, CopyPhase(os, settings, data));
    CopyPhaseEffect(os, settings, data);
    NamesDiffer();
    CopyPhaseTouches(os, settings, data, LEGACY_MANIFEST);
    StaysAbsent(EMPTY, CopyPhase(os, settings, data), LEGACY_MANIFEST);
    var copies := AllCopies(os, data, COMPONENTS);
    AllInside(copies);
    match ManifestFor(env, os, settings, data)
    case Ok(m) => PublishManifest(os, t, Copied([], copies), env.encode(m));
    case Err(_) =>
  }

  lemma PublishManifest(os: System, t: Tree, copied: map<Path, Bytes>, bytes: Bytes)
    requires Files(t) == map[[INCOMPLETE] := INCOMPLETE_NOTE] + copied
    requires [LEGACY_MANIFEST] !in t
    requires forall p :: p in copied ==> InComponent(p)
    ensures var u := After(t, WriteOps(os, [MANIFEST], bytes) + [Unlink([INCOMPLETE])]);
            && [INCOMPLETE] !in u && [LEGACY_MANIFEST] !in u
            && FileIs(u, [MANIFEST], bytes)
            && ComponentFiles(u) == copied
  {
    NamesDiffer();
    WriteEffect(os, t, [MANIFEST], bytes);
    AfterSnoc(t, WriteOps(os, [MANIFEST], bytes), Unlink([INCOMPLETE]));
    PublishedComponents(t, t[[MANIFEST] := File(bytes)] - {[INCOMPLETE]}, copied, bytes);
  }

  lemma PublishedComponents(t: Tree, u: Tree, copied: map<Path, Bytes>, bytes: Bytes)
    requires Files(t) == map[[INCOMPLETE] := INCOMPLETE_NOTE] + copied
    requires u == t[[MANIFEST] := File(bytes)] - {[INCOMPLETE]}
    requires forall p :: p in copied ==> InComponent(p)
    ensures ComponentFiles(u) == copied
  {
    NamesDiffer();
    assert [INCOMPLETE] !in copied && [MANIFEST] !in copied;
    forall p | InComponent(p) ensures p in ComponentFiles(u) <==> p in copied {
      assert p in ComponentFiles(u) <==> p in Files(t);
    }
    forall p | p in copied ensures ComponentFiles(u)[p] == copied[p] {
      assert Files(t)[p] == copied[p];
    }
  }
}
