/** The directory-level steps that backup and restore are made of. */
module Disks {
  import opened Wrappers
  import opened Text
  import opened Filesystem
  import opened Walking
  import opened Layout
  import opened Copying
  import opened Backups
  import opened Restores

  /** Of the operations `ops` begun at `start`, those in `left` are still to come. */
  ghost predicate Pending(start: seq<Op>, now: seq<Op>, ops: seq<Op>, left: seq<Op>) {
    start <= now && start + ops == now + left
  }

  lemma Begin(start: seq<Op>, ops: seq<Op>)
    ensures Pending(start, start, ops, ops)
  {
  }

  lemma Onward(start: seq<Op>, before: seq<Op>, now: seq<Op>, ops: seq<Op>, first: seq<Op>, rest: seq<Op>, ok: bool)
    requires Pending(start, before, ops, first + rest) && Ran(before, now, first, ok)
    ensures Ran(start, now, ops, false)
    ensures ok ==> Pending(start, now, ops, rest)
  {
    assert before + (first + rest) == (before + first) + rest;
  }

  lemma Finish(start: seq<Op>, now: seq<Op>, ops: seq<Op>)
    requires Pending(start, now, ops, [])
    ensures Ran(start, now, ops, true)
  {
  }

  /** `u` is where `t` came to after some of the operations, all of them when `ok`. */
  ghost predicate Stopped(t: Tree, u: Tree, ops: seq<Op>, ok: bool) {
    exists done :: done <= ops && Executes(t, done) && u == After(t, done) && (ok ==> done == ops)
  }

  lemma Replay(base: Tree, before: seq<Op>, now: seq<Op>, ops: seq<Op>, ok: bool)
    requires Executes(base, now) && Ran(before, now, ops, ok)
    ensures Stopped(After(base, before), After(base, now), ops, ok)
  {
    var done := now[|before|..];
    assert now == before + done;
    AfterConcat(base, before, done);
    assert done == (before + ops)[|before|..|now|] == ops[..|done|];
  }

  lemma Where(disk: Disk)
    requires disk.Valid()
    ensures Executes(disk.base, disk.log) && disk.tree == After(disk.base, disk.log)
  {
    assert Executes(disk.base, disk.log);
  }

  // ------------------------------------------------------------------ removal

  /** `remove_dir_all`: entry by entry, children first; an absent directory is fine. */
  method RemoveIfPresent(os: System, disk: Disk, root: Path) returns (ok: bool)
    requires disk.Valid()
    modifies disk
    ensures disk.Valid()
    ensures Ran(old(disk.log), disk.log, RemoveOps(os, old(disk.tree), root), ok)
    ensures ok ==> disk.tree == After(old(disk.tree), RemoveOps(os, old(disk.tree), root))
  {
    ghost var start, t := disk.log, disk.tree;
    if root !in disk.tree {
      return true;
    }
    if disk.tree[root].File? {
      return false;
    }
    var order := os.removal(disk.tree, root);
    var i := 0;
    assert start + Unlinks(order)[..0] == start;
    while i < |order|
      invariant i <= |order| && disk.Valid() && disk.log == start + Unlinks(order)[..i]
    {
      ok := disk.Do(Unlink(order[i]));
      if !ok {
        return;
      }
      assert Unlinks(order)[..i + 1] == Unlinks(order)[..i] + [Unlink(order[i])];
      i := i + 1;
    }
    assert Unlinks(order)[..i] == Unlinks(order);
    AfterConcat(disk.base, start, Unlinks(order));
    ok := true;
  }

  method RemoveAll(os: System, disk: Disk, roots: seq<Path>) returns (ok: bool)
    requires disk.Valid()
    modifies disk
    ensures disk.Valid()
    ensures Ran(old(disk.log), disk.log, RemoveAllOps(os, old(disk.tree), roots), ok)
    ensures ok ==> disk.tree == After(old(disk.tree), RemoveAllOps(os, old(disk.tree), roots))
  {
    ghost var start, ops := disk.log, RemoveAllOps(os, disk.tree, roots);
    var i := 0;
    assert roots[0..] == roots;
    while i < |roots|
      invariant i <= |roots| && disk.Valid() && Pending(start, disk.log, ops, RemoveAllOps(os, disk.tree, roots[i..]))
    {
      ghost var before, first := disk.log, RemoveOps(os, disk.tree, roots[i]);
      assert roots[i..][0] == roots[i] && roots[i..][1..] == roots[i + 1..];
      ghost var rest := RemoveAllOps(os, After(disk.tree, first), roots[i + 1..]);
      ok := RemoveIfPresent(os, disk, roots[i]);
      Onward(start, before, disk.log, ops, first, rest, ok);
      if !ok {
        return;
      }
      i := i + 1;
    }
    Finish(start, disk.log, ops);
    AfterConcat(disk.base, start, ops);
    ok := true;
  }

  /** Clears staging directories an interrupted restore left behind. */
  method RemoveStaleStaging(os: System, disk: Disk) returns (ok: bool)
    requires disk.Valid()
    modifies disk
    ensures disk.Valid()
    ensures var ops := RemoveAllOps(os, old(disk.tree), StaleRoots(os.names(old(disk.tree), [])));
            Ran(old(disk.log), disk.log, ops, ok) && (ok ==> disk.tree == After(old(disk.tree), ops))
  {
    ok := RemoveAll(os, disk, StaleRoots(os.names(disk.tree, [])));
  }

  // ------------------------------------------------------------- destinations

  /** Makes the destination an empty directory, or says why it must not. */
  method PrepareDestination(os: System, disk: Disk, replace: bool) returns (refused: Option<Failure>)
    requires disk.Valid()
    modifies disk
    ensures disk.Valid()
    ensures Ran(old(disk.log), disk.log, PrepareOps(os, old(disk.tree), replace), refused.None?)
    ensures refused == Some(DestinationHoldsBackup) <==> IsDir(old(disk.tree), []) && Complete(old(disk.tree))
    ensures refused == Some(DestinationNotEmpty) <==>
            && IsDir(old(disk.tree), []) && !Childless(old(disk.tree), []) && !Complete(old(disk.tree))
            && !([INCOMPLETE] in old(disk.tree) && replace)
    ensures refused == Some(DestinationHoldsBackup) || refused == Some(DestinationNotEmpty) ==>
            disk.log == old(disk.log) && disk.tree == old(disk.tree)
  {
    if [] !in disk.tree {
      var made := disk.Do(MakeDirs([]));
      return if made then None else Some(Io);
    }
    if disk.tree[[]].File? {
      return Some(Io);
    }
    if Childless(disk.tree, []) {
      assert [] <= [MANIFEST] && [MANIFEST] != [];
      return None;
    }
    if Complete(disk.tree) {
      return Some(DestinationHoldsBackup);
    }
    if [INCOMPLETE] in disk.tree && replace {
      ghost var start, clear := disk.log, Unlinks(os.removal(disk.tree, []));
      var removed := RemoveIfPresent(os, disk, []);
      if !removed {
        RanShort(start, disk.log, clear, [MakeDirs([])]);
        return Some(Io);
      }
      ghost var between := disk.log;
      var made := disk.Do(MakeDirs([]));
      RanThen(start, between, disk.log, clear, [MakeDirs([])], made);
      return if made then None else Some(Io);
    }
    return Some(DestinationNotEmpty);
  }

  /** The bytes below a directory, counted in 64 bits. */
  method MeasureDirectory(os: System, data: Tree, root: Path) returns (r: Option<nat>)
    requires Lawful(os) && WellFormed(data)
    ensures r.None? <==> WalkFiles(os, data, root).None?
    ensures r.Some? ==> (forall p :: p in WalkFiles(os, data, root).value ==> IsFile(data, p))
                        && r.value == Measured(data, WalkFiles(os, data, root).value)
  {
    var files := WalkTree(os, data, root);
    if files.None? {
      return None;
    }
    var list, total := files.value, 0;
    for i := 0 to |list|
      invariant forall p :: p in list ==> IsFile(data, p)
      invariant forall p :: p in list[..i] ==> p in list
      invariant total == Measured(data, list[..i])
    {
      assert list[i] in list && IsFile(data, list[i]);
      assert list[..i + 1][..i] == list[..i] && list[..i + 1][i] == list[i];
      total := SaturatingAdd(total, Size(data[list[i]].data));
    }
    assert list[..|list|] == list;
    r := Some(total);
  }

  method MeasureComponents(os: System, data: Tree) returns (r: Option<nat>)
    requires Lawful(os) && WellFormed(data)
    ensures r == RequiredBytes(os, data, COMPONENTS)
  {
    var total := 0;
    for i := 0 to |COMPONENTS|
      invariant RequiredBytes(os, data, COMPONENTS[..i]) == Some(total)
    {
      var bytes := MeasureDirectory(os, data, [COMPONENTS[i]]);
      var through := COMPONENTS[..i + 1];
      assert through[..i] == COMPONENTS[..i] && through[i] == COMPONENTS[i];
      if bytes.None? {
        assert RequiredBytes(os, data, through).None?;
        RequiredFails(os, data, i + 1);
        return None;
      }
      total := SaturatingAdd(total, bytes.value);
    }
    assert COMPONENTS[..|COMPONENTS|] == COMPONENTS;
    r := Some(total);
  }

  lemma {:induction false} RequiredFails(os: System, data: Tree, i: nat)
    requires Lawful(os) && WellFormed(data) && i <= |COMPONENTS|
    requires RequiredBytes(os, data, COMPONENTS[..i]).None?
    ensures RequiredBytes(os, data, COMPONENTS).None?
    decreases |COMPONENTS| - i
  {
    if i == |COMPONENTS| {
      assert COMPONENTS[..i] == COMPONENTS;
    } else {
      assert COMPONENTS[..i + 1][..i] == COMPONENTS[..i];
      RequiredFails(os, data, i + 1);
    }
  }

  method CheckDestinationSpace(required: nat, available: nat) returns (refused: Option<Failure>)
    ensures refused.None? <==> Needed(required) <= available
    ensures refused.Some? ==> refused.value == InsufficientSpace(Needed(required), available)
  {
    var margin := required / 100 * MARGIN_PERCENT;
    var needed := SaturatingAdd(required, margin);
    refused := if available < needed then Some(InsufficientSpace(needed, available)) else None;
  }

  // ------------------------------------------------------------------- copying

  function Expected(path: string, source: Option<Bytes>, digest: Bytes -> string, size: Option<(nat, string)>): Copy {
    Copy(path, source,
         source.Some? && (size.None? || size.value == (Size(source.value), digest(source.value))))
  }

  /** Copies one file below `base`, refusing an unsafe name and, when told what to expect, a mismatch. */
  method CopyFile(os: System, digest: Bytes -> string, disk: Disk, base: Path, path: string, source: Option<Bytes>,
                  expected: Option<(nat, string)>) returns (r: Result<(nat, string), Failure>)
    requires disk.Valid()
    modifies disk
    ensures disk.Valid()
    ensures Ran(old(disk.log), disk.log, CopyOps(os, base, Expected(path, source, digest, expected)), r.Ok?)
    ensures r.Ok? ==> source.Some? && r.value == (Size(source.value), digest(source.value))
    ensures !SafeRelativePath(path) ==> r == Err(UnsafePath(path))
  {
    ghost var c := Expected(path, source, digest, expected);
    var to := base + Split(path, '/');
    var safe := CheckRelativePath(path);
    if !safe {
      return Err(UnsafePath(path));
    }
    ghost var start, body := disk.log, if source.None? then [Stop] else CopyBody(os, to, source.value);
    ghost var ops, check := CopyOps(os, base, c), if source.None? then [] else Guard(c.accepted);
    assert ops == [MakeDirs(Parent(to))] + (body + check);
    Begin(start, ops);
    var made := disk.Do(MakeDirs(Parent(to)));
    Onward(start, start, disk.log, ops, [MakeDirs(Parent(to))], body + check, made);
    if !made {
      return Err(Io);
    }
    ghost var before := disk.log;
    var copied := CopyWithChecksum(os, digest, source, disk, to);
    Onward(start, before, disk.log, ops, body, check, copied.Some?);
    if copied.None? {
      return Err(Io);
    }
    if expected.Some? && copied.value != expected.value {
      return Err(ChecksumMismatch(path));
    }
    Finish(start, disk.log, ops);
    r := Ok(copied.value);
  }
}
