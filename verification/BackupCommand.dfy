/** The backup command, as the program runs it. */
module BackupCommand {
  import opened Wrappers
  import opened Sequences
  import opened Filesystem
  import opened Walking
  import opened Layout
  import opened Copying
  import opened Payloads
  import opened Manifests
  import opened Backups
  import opened BackupContents
  import opened Filing
  import opened BackupSafety
  import opened BackupEffect
  import opened RoundTrip
  import opened ManifestContents
  import opened Disks

  // ------------------------------------------------------------- one component

  lemma CopyExpected(env: Env, data: Tree, p: Path)
    requires IsFile(data, p) && p != []
    ensures Expected(p[0] + "/" + RelativeName(p), Some(data[p].data), env.digest, None) == CopyOf(data, p)
    ensures FileOf(env, CopyOf(data, p)) ==
            BackupFile(p[0] + "/" + RelativeName(p), Size(data[p].data), env.digest(data[p].data))
  {
  }

  /** What a component's counters say once these copies are made. */
  predicate Counted(env: Env, summary: BackupComponent, component: string, copies: seq<Copy>) {
    summary == BackupComponent(component, component != OBJECTS, Saturate(|copies|), SaturatingSum(FilesOf(env, copies)))
  }

  lemma {:induction false} FilesOfSnoc(env: Env, copies: seq<Copy>, c: Copy)
    ensures FilesOf(env, copies + [c]) == FilesOf(env, copies) + [FileOf(env, c)]
    decreases |copies|
  {
    if copies == [] {
      assert [c][1..] == [];
    } else {
      assert (copies + [c])[1..] == copies[1..] + [c];
      FilesOfSnoc(env, copies[1..], c);
    }
  }

  lemma CountOneMore(env: Env, summary: BackupComponent, component: string, copies: seq<Copy>, c: Copy)
    requires Counted(env, summary, component, copies)
    ensures Counted(env,
                    summary.(fileCount := SaturatingAdd(summary.fileCount, 1),
                             bytes := SaturatingAdd(summary.bytes, FileOf(env, c).size)),
                    component, copies + [c])
  {
    FilesOfSnoc(env, copies, c);
    var files := FilesOf(env, copies + [c]);
    assert files[..|files| - 1] == FilesOf(env, copies);
  }

  lemma {:induction false} FilesOfLength(env: Env, copies: seq<Copy>)
    ensures |FilesOf(env, copies)| == |copies|
  {
    if copies != [] {
      FilesOfLength(env, copies[1..]);
    }
  }

  /** Copies one component, appending its entries and keeping its counters. */
  method CopyTree(env: Env, os: System, data: Tree, disk: Disk, component: string, files: seq<BackupFile>)
    returns (r: Result<(seq<BackupFile>, BackupComponent), Failure>)
    requires Lawful(os) && WellFormed(data) && disk.Valid()
    modifies disk
    ensures disk.Valid()
    ensures Ran(old(disk.log), disk.log, TreeOps(os, data, component), r.Ok?)
    ensures r.Ok? ==> && r.value.0 == files + FilesOf(env, ComponentCopies(os, data, component))
                      && r.value.1 == ComponentEntry(env, os, data, component)
  {
    var walked := WalkTree(os, data, [component]);
    if walked.None? {
      return Err(Io);
    }
    var list := walked.value;
    assert forall p :: p in list ==> IsFile(data, p) && p != [] && p[0] == component by {
      assert forall p :: p in list ==> [component] <= p;
    }
    r := CopyListed(env, os, data, disk, component, list, files);
    FilesOfLength(env, CopiesOf(data, list));
    assert Guard(true) + CopyAllOps(os, [], CopiesOf(data, list)) == CopyAllOps(os, [], CopiesOf(data, list));
  }

  /** The copies still to be made from position `i` of a listing on. */
  function CopiesFrom(data: Tree, list: seq<Path>, i: nat): seq<Copy>
    decreases |list| - i
  {
    if i >= |list| then []
    else if !IsFile(data, list[i]) || list[i] == [] || Skipped(list[i]) then CopiesFrom(data, list, i + 1)
    else [CopyOf(data, list[i])] + CopiesFrom(data, list, i + 1)
  }

  lemma {:induction false} CopiesFromIs(data: Tree, list: seq<Path>, i: nat)
    requires i <= |list| && forall p :: p in list ==> IsFile(data, p) && p != []
    ensures forall p :: p in list[i..] ==> p in list
    ensures CopiesFrom(data, list, i) == CopiesOf(data, list[i..])
    decreases |list| - i
  {
    assert forall p :: p in list[i..] ==> p in list;
    if i < |list| {
      CopiesFromIs(data, list, i + 1);
      assert list[i] in list && list[i..][0] == list[i] && list[i..][1..] == list[i + 1..];
    }
  }

  /** One position further: the next copy, if there is one, moves over to what is made. */
  lemma Peel(data: Tree, list: seq<Path>, i: nat, made: seq<Copy>)
    requires i < |list| && IsFile(data, list[i]) && list[i] != []
    ensures Skipped(list[i]) ==> CopiesFrom(data, list, i) == CopiesFrom(data, list, i + 1)
    ensures !Skipped(list[i]) ==>
              && CopiesFrom(data, list, i) == [CopyOf(data, list[i])] + CopiesFrom(data, list, i + 1)
              && made + CopiesFrom(data, list, i) == made + [CopyOf(data, list[i])] + CopiesFrom(data, list, i + 1)
  {
    Regroup(made, [CopyOf(data, list[i])], CopiesFrom(data, list, i + 1));
  }

  lemma NextOps(os: System, c: Copy, rest: seq<Copy>)
    ensures CopyAllOps(os, [], [c] + rest) == CopyOps(os, [], c) + CopyAllOps(os, [], rest)
  {
    assert ([c] + rest)[0] == c && ([c] + rest)[1..] == rest;
  }

  /** Copies one file of a component and accounts for it. */
  method CopyEntry(env: Env, os: System, data: Tree, disk: Disk, component: string, p: Path, files: seq<BackupFile>,
                   summary: BackupComponent, ghost made: seq<Copy>)
    returns (r: Result<(seq<BackupFile>, BackupComponent), Failure>)
    requires disk.Valid() && IsFile(data, p) && p != [] && p[0] == component && Counted(env, summary, component, made)
    modifies disk
    ensures disk.Valid() && Ran(old(disk.log), disk.log, CopyOps(os, [], CopyOf(data, p)), r.Ok?)
    ensures r.Ok? ==> && r.value.0 == files + [FileOf(env, CopyOf(data, p))]
                      && Counted(env, r.value.1, component, made + [CopyOf(data, p)])
  {
    CopyExpected(env, data, p);
    CountOneMore(env, summary, component, made, CopyOf(data, p));
    var path := component + "/" + RelativeName(p);
    var copied := CopyFile(os, env.digest, disk, [], path, Some(data[p].data), None);
    if copied.Err? {
      return Err(copied.error);
    }
    r := Ok((files + [BackupFile(path, copied.value.0, copied.value.1)],
             summary.(fileCount := SaturatingAdd(summary.fileCount, 1),
                      bytes := SaturatingAdd(summary.bytes, copied.value.0))));
  }

  /** Entries and counters after the copies made so far. */
  ghost predicate Accounted(env: Env, component: string, files: seq<BackupFile>, made: seq<Copy>,
                            entries: seq<BackupFile>, summary: BackupComponent) {
    entries == files + FilesOf(env, made) && Counted(env, summary, component, made)
  }

  method CopyListed(env: Env, os: System, data: Tree, disk: Disk, component: string, list: seq<Path>,
                    files: seq<BackupFile>)
    returns (r: Result<(seq<BackupFile>, BackupComponent), Failure>)
    requires disk.Valid() && forall p :: p in list ==> IsFile(data, p) && p != [] && p[0] == component
    modifies disk
    ensures disk.Valid()
    ensures Ran(old(disk.log), disk.log, CopyAllOps(os, [], CopiesOf(data, list)), r.Ok?)
    ensures r.Ok? ==> Accounted(env, component, files, CopiesOf(data, list), r.value.0, r.value.1)
  {
    CopiesFromIs(data, list, 0);
    assert list[0..] == list;
    r := CopyFrom(env, os, data, disk, component, list, files);
  }

  /** Where the loop over a listing stands before position `i`. */
  ghost predicate Progress(env: Env, os: System, data: Tree, component: string, list: seq<Path>,
                           files: seq<BackupFile>, start: seq<Op>, log: seq<Op>, i: nat, made: seq<Copy>,
                           entries: seq<BackupFile>, summary: BackupComponent) {
    && made + CopiesFrom(data, list, i) == CopiesFrom(data, list, 0)
    && Pending(start, log, CopyAllOps(os, [], CopiesFrom(data, list, 0)), CopyAllOps(os, [], CopiesFrom(data, list, i)))
    && Accounted(env, component, files, made, entries, summary)
  }

  lemma ProgressStarts(env: Env, os: System, data: Tree, component: string, list: seq<Path>, files: seq<BackupFile>,
                       log: seq<Op>)
    ensures Progress(env, os, data, component, list, files, log, log, 0, [], files,
                     BackupComponent(component, component != OBJECTS, 0, 0))
  {
    assert files + [] == files && [] + CopiesFrom(data, list, 0) == CopiesFrom(data, list, 0);
  }

  lemma ProgressEnds(env: Env, os: System, data: Tree, component: string, list: seq<Path>, files: seq<BackupFile>,
                     start: seq<Op>, log: seq<Op>, made: seq<Copy>, entries: seq<BackupFile>, summary: BackupComponent)
    requires Progress(env, os, data, component, list, files, start, log, |list|, made, entries, summary)
    ensures Ran(start, log, CopyAllOps(os, [], CopiesFrom(data, list, 0)), true)
    ensures Accounted(env, component, files, CopiesFrom(data, list, 0), entries, summary)
  {
    assert made + [] == made;
    Finish(start, log, CopyAllOps(os, [], CopiesFrom(data, list, 0)));
  }

  /** The loop over the listing. */
  method CopyFrom(env: Env, os: System, data: Tree, disk: Disk, component: string, list: seq<Path>,
                  files: seq<BackupFile>)
    returns (r: Result<(seq<BackupFile>, BackupComponent), Failure>)
    requires disk.Valid() && forall p :: p in list ==> IsFile(data, p) && p != [] && p[0] == component
    modifies disk
    ensures disk.Valid()
    ensures Ran(old(disk.log), disk.log, CopyAllOps(os, [], CopiesFrom(data, list, 0)), r.Ok?)
    ensures r.Ok? ==> Accounted(env, component, files, CopiesFrom(data, list, 0), r.value.0, r.value.1)
  {
    ghost var start, made: seq<Copy> := disk.log, [];
    var entries, summary := files, BackupComponent(component, component != OBJECTS, 0, 0);
    ProgressStarts(env, os, data, component, list, files, start);
    var i := 0;
    while i < |list|
      invariant i <= |list| && disk.Valid()
      invariant Progress(env, os, data, component, list, files, start, disk.log, i, made, entries, summary)
    {
      assert list[i] in list;
      r, made := CopyAt(env, os, data, disk, component, list, files, entries, summary, i, start, made);
      if r.Err? {
        return;
      }
      entries, summary, i := r.value.0, r.value.1, i + 1;
    }
    ProgressEnds(env, os, data, component, list, files, start, disk.log, made, entries, summary);
    r := Ok((entries, summary));
  }

  /** One position of the listing: nothing for scratch, a copy otherwise. */
  method CopyAt(env: Env, os: System, data: Tree, disk: Disk, component: string, list: seq<Path>,
                files: seq<BackupFile>, entries: seq<BackupFile>, summary: BackupComponent, i: nat,
                ghost start: seq<Op>, ghost made: seq<Copy>)
    returns (r: Result<(seq<BackupFile>, BackupComponent), Failure>, ghost more: seq<Copy>)
    requires disk.Valid() && i < |list| && IsFile(data, list[i]) && list[i] != [] && list[i][0] == component
    requires Progress(env, os, data, component, list, files, start, disk.log, i, made, entries, summary)
    modifies disk
    ensures disk.Valid()
    ensures r.Err? ==> Ran(start, disk.log, CopyAllOps(os, [], CopiesFrom(data, list, 0)), false)
    ensures r.Ok? ==> Progress(env, os, data, component, list, files, start, disk.log, i + 1, more,
                               r.value.0, r.value.1)
  {
    Peel(data, list, i, made);
    if Skipped(list[i]) {
      r, more := Ok((entries, summary)), made;
    } else {
      ghost var ops := CopyAllOps(os, [], CopiesFrom(data, list, 0));
      more := made + [CopyOf(data, list[i])];
      r := CopyNext(env, os, data, disk, component, list[i], entries, summary, made, files, start, ops,
                    CopiesFrom(data, list, i + 1));
    }
  }

  /** One file of the loop, in terms of the whole loop. */
  method CopyNext(env: Env, os: System, data: Tree, disk: Disk, component: string, p: Path, entries: seq<BackupFile>,
                  summary: BackupComponent, ghost made: seq<Copy>, ghost files: seq<BackupFile>,
                  ghost start: seq<Op>, ghost ops: seq<Op>, ghost rest: seq<Copy>)
    returns (r: Result<(seq<BackupFile>, BackupComponent), Failure>)
    requires disk.Valid() && IsFile(data, p) && p != [] && p[0] == component
    requires Accounted(env, component, files, made, entries, summary)
    requires Pending(start, disk.log, ops, CopyAllOps(os, [], [CopyOf(data, p)] + rest))
    modifies disk
    ensures disk.Valid()
    ensures r.Err? ==> Ran(start, disk.log, ops, false)
    ensures r.Ok? ==> && Pending(start, disk.log, ops, CopyAllOps(os, [], rest))
                      && Accounted(env, component, files, made + [CopyOf(data, p)], r.value.0, r.value.1)
  {
    ghost var c, before := CopyOf(data, p), disk.log;
    NextOps(os, c, rest);
    r := CopyEntry(env, os, data, disk, component, p, entries, summary, made);
    Onward(start, before, disk.log, ops, CopyOps(os, [], c), CopyAllOps(os, [], rest), r.Ok?);
    FilesOfSnoc(env, made, c);
    Regroup(files, FilesOf(env, made), [FileOf(env, c)]);
  }

  // ------------------------------------------------------------ all components

  lemma NextOfAll(env: Env, os: System, data: Tree, components: seq<string>)
    requires Lawful(os) && WellFormed(data) && components != []
    ensures FilesOf(env, AllCopies(os, data, components)) ==
            FilesOf(env, ComponentCopies(os, data, components[0])) + FilesOf(env, AllCopies(os, data, components[1..]))
  {
    FilesOfConcat(env, ComponentCopies(os, data, components[0]), AllCopies(os, data, components[1..]));
  }

  /** What is left before and after component `i`. */
  lemma NextComponent(env: Env, os: System, data: Tree, components: seq<string>, i: nat)
    requires Lawful(os) && WellFormed(data) && i < |components|
    ensures ComponentsOps(os, data, components[i..]) ==
            ComponentOps(os, data, components[i]) + ComponentsOps(os, data, components[i + 1..])
    ensures FilesOf(env, AllCopies(os, data, components[i..])) ==
            FilesOf(env, ComponentCopies(os, data, components[i]))
            + FilesOf(env, AllCopies(os, data, components[i + 1..]))
  {
    assert components[i..][0] == components[i] && components[i..][1..] == components[i + 1..];
    NextOfAll(env, os, data, components[i..]);
  }

  /** `files` and `summaries` are what the components before `i` came to. */
  ghost predicate Gathered(env: Env, os: System, data: Tree, components: seq<string>, i: nat,
                           files: seq<BackupFile>, summaries: seq<BackupComponent>)
    requires Lawful(os) && WellFormed(data) && i <= |components|
  {
    && FilesOf(env, AllCopies(os, data, components)) == files + FilesOf(env, AllCopies(os, data, components[i..]))
    && |summaries| == i && forall k :: 0 <= k < i ==> summaries[k] == ComponentEntry(env, os, data, components[k])
  }

  lemma GatherOne(env: Env, os: System, data: Tree, components: seq<string>, i: nat,
                  files: seq<BackupFile>, summaries: seq<BackupComponent>)
    requires Lawful(os) && WellFormed(data) && i < |components|
    requires Gathered(env, os, data, components, i, files, summaries)
    ensures Gathered(env, os, data, components, i + 1, files + FilesOf(env, ComponentCopies(os, data, components[i])),
                     summaries + [ComponentEntry(env, os, data, components[i])])
  {
    NextComponent(env, os, data, components, i);
    Regroup(files, FilesOf(env, ComponentCopies(os, data, components[i])),
            FilesOf(env, AllCopies(os, data, components[i + 1..])));
  }

  lemma GatherAll(env: Env, os: System, data: Tree, components: seq<string>,
                  files: seq<BackupFile>, summaries: seq<BackupComponent>)
    requires Lawful(os) && WellFormed(data)
    requires Gathered(env, os, data, components, |components|, files, summaries)
    ensures files == FilesOf(env, AllCopies(os, data, components))
    ensures summaries == ComponentEntries(env, os, data, components)
  {
    assert components[|components|..] == [];
    assert files + [] == files;
  }

  lemma GatherNone(env: Env, os: System, data: Tree, components: seq<string>)
    requires Lawful(os) && WellFormed(data)
    ensures Gathered(env, os, data, components, 0, [], [])
  {
    var all := FilesOf(env, AllCopies(os, data, components));
    assert components[0..] == components && [] + all == all;
  }

  /** Copies every component in turn. */
  method CopyComponents(env: Env, os: System, data: Tree, disk: Disk, components: seq<string>)
    returns (r: Result<(seq<BackupFile>, seq<BackupComponent>), Failure>)
    requires Lawful(os) && WellFormed(data) && disk.Valid()
    modifies disk
    ensures disk.Valid()
    ensures Ran(old(disk.log), disk.log, ComponentsOps(os, data, components), r.Ok?)
    ensures r.Ok? ==> Gathered(env, os, data, components, |components|, r.value.0, r.value.1)
  {
    ghost var start, ops := disk.log, ComponentsOps(os, data, components);
    GatherNone(env, os, data, components);
    var files: seq<BackupFile>, summaries: seq<BackupComponent> := [], [];
    var i := 0;
    assert components[0..] == components;
    while i < |components|
      invariant i <= |components| && disk.Valid()
      invariant Pending(start, disk.log, ops, ComponentsOps(os, data, components[i..]))
      invariant Gathered(env, os, data, components, i, files, summaries)
    {
      var copied := CopyAnother(env, os, data, disk, components, i, files, summaries, start, ops);
      if copied.Err? {
        return Err(copied.error);
      }
      files, summaries, i := copied.value.0, copied.value.1, i + 1;
    }
    assert components[|components|..] == [];
    Finish(start, disk.log, ops);
    r := Ok((files, summaries));
  }

  /** One component of the loop, in terms of the whole loop. */
  method CopyAnother(env: Env, os: System, data: Tree, disk: Disk, components: seq<string>, i: nat,
                     files: seq<BackupFile>, summaries: seq<BackupComponent>, ghost start: seq<Op>, ghost ops: seq<Op>)
    returns (r: Result<(seq<BackupFile>, seq<BackupComponent>), Failure>)
    requires Lawful(os) && WellFormed(data) && disk.Valid() && i < |components|
    requires Pending(start, disk.log, ops, ComponentsOps(os, data, components[i..]))
    requires Gathered(env, os, data, components, i, files, summaries)
    modifies disk
    ensures disk.Valid() && Ran(start, disk.log, ops, false)
    ensures r.Ok? ==> && Pending(start, disk.log, ops, ComponentsOps(os, data, components[i + 1..]))
                      && Gathered(env, os, data, components, i + 1, r.value.0, r.value.1)
  {
    ghost var before := disk.log;
    NextComponent(env, os, data, components, i);
    GatherOne(env, os, data, components, i, files, summaries);
    var copied := CopyComponent(env, os, data, disk, components[i], files);
    Onward(start, before, disk.log, ops, ComponentOps(os, data, components[i]),
           ComponentsOps(os, data, components[i + 1..]), copied.Ok?);
    if copied.Err? {
      return Err(copied.error);
    }
    r := Ok((copied.value.0, summaries + [copied.value.1]));
  }

  method CopyComponent(env: Env, os: System, data: Tree, disk: Disk, component: string, files: seq<BackupFile>)
    returns (r: Result<(seq<BackupFile>, BackupComponent), Failure>)
    requires Lawful(os) && WellFormed(data) && disk.Valid()
    modifies disk
    ensures disk.Valid()
    ensures Ran(old(disk.log), disk.log, ComponentOps(os, data, component), r.Ok?)
    ensures r.Ok? ==> && r.value.0 == files + FilesOf(env, ComponentCopies(os, data, component))
                      && r.value.1 == ComponentEntry(env, os, data, component)
  {
    ghost var start := disk.log;
    ghost var rest := TreeOps(os, data, component);
    var made := disk.Do(MakeDirs([component]));
    if !made {
      RanShort(start, disk.log, [MakeDirs([component])], rest);
      return Err(Io);
    }
    ghost var between := disk.log;
    r := CopyTree(env, os, data, disk, component, files);
    RanThen(start, between, disk.log, [MakeDirs([component])], rest, r.Ok?);
  }

  // --------------------------------------------------------------- the manifest

  /** The first required file that was not copied. */
  method FindMissing(present: set<string>) returns (missing: Option<string>)
    ensures missing == if REQUIRED[0] !in present then Some(REQUIRED[0])
                       else if REQUIRED[1] !in present then Some(REQUIRED[1])
                       else if REQUIRED[2] !in present then Some(REQUIRED[2])
                       else None
  {
    for i := 0 to |REQUIRED|
      invariant forall k :: 0 <= k < i ==> REQUIRED[k] in present
    {
      if REQUIRED[i] !in present {
        return Some(REQUIRED[i]);
      }
    }
    missing := None;
  }

  /** Makes the manifest, reading the versions back from the destination. */
  method AssembleManifest(env: Env, settings: Settings, t: Tree, files: seq<BackupFile>,
                          components: seq<BackupComponent>) returns (r: Result<Manifest, Failure>)
    ensures r == Assembled(env, settings, Files(t), files, components)
  {
    var missing := FindMissing(set f | f in files :: f.path);
    if missing.Some? {
      return Err(MissingComponent(missing.value));
    }
    var schema := if IsFile(t, CATALOG) then env.schemaVersion(t[CATALOG].data) else None;
    var storage := if IsFile(t, STORAGE_FORMAT) then env.storageFormat(t[STORAGE_FORMAT].data) else None;
    if storage.None? || settings.sealingKey.None? {
      return Err(BadRecord);
    }
    r := Ok(Manifest(FORMAT_VERSION, if schema.Some? then schema.value else SCHEMA_VERSION, storage.value,
                     settings.now, IsFile(t, ENCRYPTION_RECORD), settings.sealingKey, components,
                     files, TotalBytes(files)));
  }

  /** The note beside the copies makes no difference to the manifest. */
  lemma NoteIsNoComponent(env: Env, settings: Settings, copied: map<Path, Bytes>, note: Bytes,
                          files: seq<BackupFile>, components: seq<BackupComponent>)
    ensures Assembled(env, settings, map[[INCOMPLETE] := note] + copied, files, components)
            == Assembled(env, settings, copied, files, components)
  {
    assert |STORAGE_FORMAT| == |CATALOG| == |ENCRYPTION_RECORD| == 2;
  }

  // ---------------------------------------------------------------- the command

  /** Publishing: the manifest, then, only now, the marker's removal. */
  method Publish(env: Env, os: System, disk: Disk, m: Manifest) returns (ok: bool)
    requires disk.Valid()
    modifies disk
    ensures disk.Valid()
    ensures Ran(old(disk.log), disk.log, WriteOps(os, [MANIFEST], env.encode(m)) + [Unlink([INCOMPLETE])], ok)
  {
    ghost var start, write := disk.log, WriteOps(os, [MANIFEST], env.encode(m));
    ok := WriteDurable(os, disk, [MANIFEST], env.encode(m));
    if !ok {
      RanShort(start, disk.log, write, [Unlink([INCOMPLETE])]);
      return;
    }
    ghost var between := disk.log;
    ok := disk.Do(Unlink([INCOMPLETE]));
    RanThen(start, between, disk.log, write, [Unlink([INCOMPLETE])], ok);
  }

  method CheckSpace(os: System, settings: Settings, data: Tree) returns (refused: Option<Failure>)
    requires Lawful(os) && WellFormed(data)
    ensures refused.None? <==> SpaceSuffices(os, settings, data)
  {
    var required := MeasureComponents(os, data);
    if required.None? {
      return Some(Io);
    }
    refused := CheckDestinationSpace(required.value, settings.available);
  }

  /** From the space check to the last copied byte. */
  method CopyEverything(env: Env, os: System, settings: Settings, data: Tree, disk: Disk)
    returns (r: Result<(seq<BackupFile>, seq<BackupComponent>), Failure>)
    requires Lawful(os) && WellFormed(data) && disk.Valid()
    modifies disk
    ensures disk.Valid()
    ensures Ran(old(disk.log), disk.log, CopyPhase(os, settings, data), r.Ok?)
    ensures !SpaceSuffices(os, settings, data) ==> r.Err? && disk.log == old(disk.log)
    ensures r.Ok? ==> Gathered(env, os, data, COMPONENTS, |COMPONENTS|, r.value.0, r.value.1)
  {
    var refused := CheckSpace(os, settings, data);
    if refused.Some? {
      return Err(refused.value);
    }
    r := MarkAndCopy(env, os, data, disk);
    assert forall ops: seq<Op> :: [] + ops == ops;
  }

  method MarkAndCopy(env: Env, os: System, data: Tree, disk: Disk)
    returns (r: Result<(seq<BackupFile>, seq<BackupComponent>), Failure>)
    requires Lawful(os) && WellFormed(data) && disk.Valid()
    modifies disk
    ensures disk.Valid()
    ensures Ran(old(disk.log), disk.log,
                WriteOps(os, [INCOMPLETE], INCOMPLETE_NOTE) + ComponentsOps(os, data, COMPONENTS), r.Ok?)
    ensures r.Ok? ==> Gathered(env, os, data, COMPONENTS, |COMPONENTS|, r.value.0, r.value.1)
  {
    ghost var start, mark, copies := disk.log, WriteOps(os, [INCOMPLETE], INCOMPLETE_NOTE),
        ComponentsOps(os, data, COMPONENTS);
    var marked := WriteDurable(os, disk, [INCOMPLETE], INCOMPLETE_NOTE);
    if !marked {
      RanShort(start, disk.log, mark, copies);
      return Err(Io);
    }
    ghost var between := disk.log;
    r := CopyComponents(env, os, data, disk, COMPONENTS);
    RanThen(start, between, disk.log, mark, copies, r.Ok?);
  }

  lemma ReplayCopies(os: System, settings: Settings, data: Tree, base: Tree, start: seq<Op>)
    requires Lawful(os) && WellFormed(data) && Executes(base, start + CopyPhase(os, settings, data))
    requires After(base, start) == EMPTY
    ensures Files(After(base, start + CopyPhase(os, settings, data)))
            == map[[INCOMPLETE] := INCOMPLETE_NOTE] + Copied([], AllCopies(os, data, COMPONENTS))
  {
    AfterConcat(base, start, CopyPhase(os, settings, data));
    CopyPhaseEffect(os, settings, data);
  }

  /** The manifest read back from the copies is the one the deployment calls for. */
  method Describe(env: Env, os: System, settings: Settings, data: Tree, t: Tree, files: seq<BackupFile>,
                  components: seq<BackupComponent>) returns (r: Result<Manifest, Failure>)
    requires Lawful(os) && WellFormed(data)
    requires Gathered(env, os, data, COMPONENTS, |COMPONENTS|, files, components)
    requires Files(t) == map[[INCOMPLETE] := INCOMPLETE_NOTE] + Copied([], AllCopies(os, data, COMPONENTS))
    ensures r == ManifestFor(env, os, settings, data)
  {
    GatherAll(env, os, data, COMPONENTS, files, components);
    NoteIsNoComponent(env, settings, Copied([], AllCopies(os, data, COMPONENTS)), INCOMPLETE_NOTE,
                      Sorted(files), components);
    r := AssembleManifest(env, settings, t, Sorted(files), components);
  }

  /** Fills an empty destination and publishes it. */
  method CopyAndPublish(env: Env, os: System, settings: Settings, data: Tree, disk: Disk)
    returns (r: Result<Manifest, Failure>)
    requires Lawful(os) && WellFormed(data) && disk.Valid() && disk.tree == EMPTY
    modifies disk
    ensures disk.Valid()
    ensures Ran(old(disk.log), disk.log, CopyPhase(os, settings, data) + PublishOps(env, os, settings, data), r.Ok?)
    ensures r.Ok? ==> ManifestFor(env, os, settings, data) == Ok(r.value)
  {
    ghost var start, copy, publish := disk.log, CopyPhase(os, settings, data), PublishOps(env, os, settings, data);
    ghost var replay := Executes(disk.base, disk.log);
    var gathered := CopyEverything(env, os, settings, data, disk);
    if gathered.Err? {
      RanShort(start, disk.log, copy, publish);
      return Err(gathered.error);
    }
    ghost var between := disk.log;
    assert Executes(disk.base, start + copy) && disk.tree == After(disk.base, start + copy);
    ReplayCopies(os, settings, data, disk.base, start);
    r := Describe(env, os, settings, data, disk.tree, gathered.value.0, gathered.value.1);
    if r.Err? {
      RanThen(start, between, disk.log, copy, publish, false);
      return;
    }
    var published := Publish(env, os, disk, r.value);
    RanThen(start, between, disk.log, copy, publish, published);
    if !published {
      r := Err(Io);
    }
  }

  lemma ReplayPrepared(os: System, base: Tree, start: seq<Op>, replace: bool)
    requires Lawful(os) && Executes(base, start + PrepareOps(os, After(base, start), replace))
    requires WellFormed(After(base, start))
    ensures After(base, start + PrepareOps(os, After(base, start), replace)) == EMPTY
  {
    AfterConcat(base, start, PrepareOps(os, After(base, start), replace));
    PrepareLeavesEmpty(os, After(base, start), replace);
  }

  /**
   * `backup`.  It keeps to the script and, when it reports success, has carried
   * it out; a deployment that is not there or is mid-restore is refused before
   * anything is written; a complete backup in the destination is left alone.
   */
  method Backup(env: Env, os: System, settings: Settings, data: Tree, disk: Disk, replace: bool)
    returns (r: Result<Manifest, Failure>)
    requires Lawful(os) && WellFormed(data) && disk.Valid() && WellFormed(disk.tree)
    modifies disk
    ensures disk.Valid()
    ensures Stopped(old(disk.tree), disk.tree, BackupScript(env, os, settings, data, old(disk.tree), replace), r.Ok?)
    ensures r.Ok? ==> BackupAdmitted(data) && ManifestFor(env, os, settings, data) == Ok(r.value)
    ensures !BackupAdmitted(data) ==> r.Err? && disk.tree == old(disk.tree)
    ensures IsDir(old(disk.tree), []) && Complete(old(disk.tree)) ==> r.Err? && disk.tree == old(disk.tree)
    ensures [] in data && [RESTORE_MARKER] in data ==> r == Err(RestoreInProgress)
    ensures [] !in data || ([RESTORE_MARKER] !in data && !IsFile(data, STORAGE_FORMAT)) ==> r == Err(NotInitialized)
    ensures BackupAdmitted(data) && IsDir(old(disk.tree), []) && Complete(old(disk.tree)) ==>
              r == Err(DestinationHoldsBackup)
    ensures BackupAdmitted(data) && IsDir(old(disk.tree), []) && !Childless(old(disk.tree), [])
            && !Complete(old(disk.tree)) && !([INCOMPLETE] in old(disk.tree) && replace) ==>
              r == Err(DestinationNotEmpty) && disk.tree == old(disk.tree)
    ensures r.Ok? ==>
              && Storable(data) && HoldsBackup(env, disk.tree, r.value, Slashed(data))
              && Tells(env, settings, data, r.value)
  {
    ghost var script := BackupScript(env, os, settings, data, disk.tree, replace);
    assert Executes(disk.base, disk.log) && disk.tree == After(disk.base, disk.log);
    ghost var before := disk.log;
    r := RunBackup(env, os, settings, data, disk, replace);
    assert Executes(disk.base, disk.log) && disk.tree == After(disk.base, disk.log);
    Replay(disk.base, before, disk.log, script, r.Ok?);
    if r.Ok? {
      FinishedHolds(env, os, settings, data, old(disk.tree), replace);
      ManifestTells(env, os, settings, data, r.value);
    }
  }

  /** The same, in terms of the operations carried out. */
  method RunBackup(env: Env, os: System, settings: Settings, data: Tree, disk: Disk, replace: bool)
    returns (r: Result<Manifest, Failure>)
    requires Lawful(os) && WellFormed(data) && disk.Valid() && WellFormed(disk.tree)
    modifies disk
    ensures disk.Valid()
    ensures Ran(old(disk.log), disk.log, BackupScript(env, os, settings, data, old(disk.tree), replace), r.Ok?)
    ensures r.Ok? ==> BackupAdmitted(data) && ManifestFor(env, os, settings, data) == Ok(r.value)
    ensures !BackupAdmitted(data) ==> r.Err? && disk.log == old(disk.log) && disk.tree == old(disk.tree)
    ensures IsDir(old(disk.tree), []) && Complete(old(disk.tree)) ==>
            r.Err? && disk.log == old(disk.log) && disk.tree == old(disk.tree)
    ensures [] in data && [RESTORE_MARKER] in data ==> r == Err(RestoreInProgress)
    ensures [] !in data || ([RESTORE_MARKER] !in data && !IsFile(data, STORAGE_FORMAT)) ==> r == Err(NotInitialized)
    ensures BackupAdmitted(data) && IsDir(old(disk.tree), []) && Complete(old(disk.tree)) ==>
              r == Err(DestinationHoldsBackup)
    ensures BackupAdmitted(data) && IsDir(old(disk.tree), []) && !Childless(old(disk.tree), [])
            && !Complete(old(disk.tree)) && !([INCOMPLETE] in old(disk.tree) && replace) ==>
              r == Err(DestinationNotEmpty) && disk.tree == old(disk.tree)
  {
    if [] !in data {
      return Err(NotInitialized);
    }
    if [RESTORE_MARKER] in data {
      return Err(RestoreInProgress);
    }
    if !IsFile(data, STORAGE_FORMAT) {
      return Err(NotInitialized);
    }
    ghost var start, prepare := disk.log, PrepareOps(os, disk.tree, replace);
    ghost var rest := CopyPhase(os, settings, data) + PublishOps(env, os, settings, data);
    assert Executes(disk.base, start) && disk.tree == After(disk.base, start);
    var refused := PrepareDestination(os, disk, replace);
    if refused.Some? {
      RanShort(start, disk.log, prepare, rest);
      return Err(refused.value);
    }
    assert Executes(disk.base, start + prepare) && disk.tree == After(disk.base, start + prepare);
    ReplayPrepared(os, disk.base, start, replace);
    ghost var between := disk.log;
    r := CopyAndPublish(env, os, settings, data, disk);
    RanThen(start, between, disk.log, prepare, rest, r.Ok?);
  }
}
