/** Writing files: chunked writes, checksummed copies, and what a batch of copies leaves. */
module Copying {
  import opened Wrappers
  import opened Text
  import opened Filesystem
  import opened Layout

  const BUFFER: nat := 256 * 1024

  /** How much the next read or write moves: whatever the system chose, within the buffer. */
  function Chunk(os: System, data: Bytes, at: nat): (n: nat)
    requires at < |data|
    ensures 1 <= n <= |data| - at
  {
    var most := if |data| - at < BUFFER then |data| - at else BUFFER;
    var n := os.chunk(data, at);
    if 1 <= n <= most then n else most
  }

  function Appends(os: System, p: Path, data: Bytes, at: nat): seq<Op>
    requires at <= |data|
    decreases |data| - at
  {
    if at == |data| then []
    else
      var n := Chunk(os, data, at);
      [Append(p, data[at..at + n])] + Appends(os, p, data, at + n)
  }

  /** `write_durable`: create or truncate, then write. */
  function WriteOps(os: System, p: Path, data: Bytes): seq<Op> {
    [Truncate(p)] + Appends(os, p, data, 0)
  }

  /** `copy_with_checksum`, as far as the target is concerned. */
  function CopyBody(os: System, to: Path, data: Bytes): seq<Op> {
    [CreateNew(to)] + Appends(os, to, data, 0)
  }

  lemma {:induction false} AppendsComplete(os: System, t: Tree, p: Path, data: Bytes, at: nat)
    requires at <= |data| && p in t && t[p] == File(data[..at])
    ensures Executes(t, Appends(os, p, data, at))
    ensures After(t, Appends(os, p, data, at)) == t[p := File(data)]
    decreases |data| - at
  {
    if at == |data| {
      assert data[..at] == data;
    } else {
      var n := Chunk(os, data, at);
      var u := Apply(t, Append(p, data[at..at + n]));
      assert data[..at] + data[at..at + n] == data[..at + n];
      AppendsComplete(os, u, p, data, at + n);
      assert u[p := File(data)] == t[p := File(data)];
      var ops := Appends(os, p, data, at);
      assert ops[1..] == Appends(os, p, data, at + n);
    }
  }

  /** An interrupted write leaves a prefix of the data, a proper one unless it had finished. */
  lemma {:induction false} AppendsInterrupted(os: System, t: Tree, p: Path, data: Bytes, at: nat, done: seq<Op>)
    returns (k: nat)
    requires at <= |data| && p in t && t[p] == File(data[..at])
    requires done <= Appends(os, p, data, at)
    ensures k <= |data| && After(t, done) == t[p := File(data[..k])]
    ensures k == |data| ==> done == Appends(os, p, data, at)
    decreases |data| - at
  {
    if done == [] {
      k := at;
    } else {
      var n := Chunk(os, data, at);
      var u := Apply(t, done[0]);
      var ops := Appends(os, p, data, at);
      assert ops[0] == done[0] && ops[1..] == Appends(os, p, data, at + n);
      assert done[1..] <= ops[1..];
      assert data[..at] + data[at..at + n] == data[..at + n];
      k := AppendsInterrupted(os, u, p, data, at + n, done[1..]);
      assert u[p := File(data[..k])] == t[p := File(data[..k])];
    }
  }

  lemma {:induction false} AppendsTouch(os: System, p: Path, data: Bytes, at: nat, name: string)
    requires at <= |data| && p != [] && p[0] != name
    ensures NoneTouch(Appends(os, p, data, at), name)
    decreases |data| - at
  {
    if at < |data| {
      AppendsTouch(os, p, data, at + Chunk(os, data, at), name);
    }
  }

  lemma CopyBodyEffect(os: System, t: Tree, to: Path, data: Bytes)
    ensures Executes(t, CopyBody(os, to, data)) <==> Enabled(t, CreateNew(to))
    ensures After(t, CopyBody(os, to, data)) == t[to := File(data)]
  {
    var u := t[to := File([])];
    AppendsComplete(os, u, to, data, 0);
    assert CopyBody(os, to, data)[1..] == Appends(os, to, data, 0);
    assert u[to := File(data)] == t[to := File(data)];
  }

  lemma WriteEffect(os: System, t: Tree, p: Path, data: Bytes)
    ensures Executes(t, WriteOps(os, p, data)) <==> Enabled(t, Truncate(p))
    ensures After(t, WriteOps(os, p, data)) == t[p := File(data)]
  {
    var u := t[p := File([])];
    AppendsComplete(os, u, p, data, 0);
    assert WriteOps(os, p, data)[1..] == Appends(os, p, data, 0);
    assert u[p := File(data)] == t[p := File(data)];
  }

  // ----------------------------------------------------------------- copies

  /**
   * One file to bring over: its manifest path, its bytes when the source has
   * them, and whether they are what the manifest recorded.
   */
  datatype Copy = Copy(path: string, data: Option<Bytes>, accepted: bool)

  function Target(base: Path, c: Copy): (p: Path)
    ensures |p| > |base|
  {
    base + Split(c.path, '/')
  }

  function CopyOps(os: System, base: Path, c: Copy): seq<Op> {
    Guard(SafeRelativePath(c.path))
    + [MakeDirs(Parent(Target(base, c)))]
    + if c.data.None? then [Stop]
      else CopyBody(os, Target(base, c), c.data.value) + Guard(c.accepted)
  }

  function CopyAllOps(os: System, base: Path, copies: seq<Copy>): seq<Op> {
    if copies == [] then [] else CopyOps(os, base, copies[0]) + CopyAllOps(os, base, copies[1..])
  }

  /** What a batch of copies puts below `base`. */
  function Copied(base: Path, copies: seq<Copy>): map<Path, Bytes> {
    if copies == [] then map[]
    else
      (if copies[0].data.Some? then map[Target(base, copies[0]) := copies[0].data.value] else map[])
      + Copied(base, copies[1..])
  }

  predicate Acceptable(c: Copy) {
    SafeRelativePath(c.path) && c.data.Some? && c.accepted
  }

  lemma CopyParts(os: System, t: Tree, base: Path, c: Copy)
    requires Executes(t, CopyOps(os, base, c))
    ensures Acceptable(c)
    ensures CopyOps(os, base, c) == [MakeDirs(Parent(Target(base, c)))] + CopyBody(os, Target(base, c), c.data.value)
  {
    var guard, mid := Guard(SafeRelativePath(c.path)), [MakeDirs(Parent(Target(base, c)))];
    var last := if c.data.None? then [Stop]
                else CopyBody(os, Target(base, c), c.data.value) + Guard(c.accepted);
    AfterConcat(t, guard + mid, last);
    AfterConcat(t, guard, mid);
    if c.data.Some? {
      AfterConcat(After(t, guard + mid), CopyBody(os, Target(base, c), c.data.value), Guard(c.accepted));
    }
  }

  lemma MakeKeepsFiles(t: Tree, p: Path)
    ensures Files(Apply(t, MakeDirs(p))) == Files(t)
  {
  }

  lemma CopyEffect(os: System, t: Tree, base: Path, c: Copy)
    requires Executes(t, CopyOps(os, base, c))
    ensures Acceptable(c)
    ensures Target(base, c) !in t
    ensures Files(After(t, CopyOps(os, base, c))) == Files(t)[Target(base, c) := c.data.value]
  {
    CopyParts(os, t, base, c);
    var to := Target(base, c);
    var u := Apply(t, MakeDirs(Parent(to)));
    AfterConcat(t, [MakeDirs(Parent(to))], CopyBody(os, to, c.data.value));
    AfterOne(t, MakeDirs(Parent(to)));
    CopyBodyEffect(os, u, to, c.data.value);
    MakeKeepsFiles(t, Parent(to));
    assert Files(u[to := File(c.data.value)]) == Files(u)[to := c.data.value];
  }

  /** A batch that ran to its end had acceptable paths and left exactly its files. */
  lemma {:induction false} CopiesEffect(os: System, t: Tree, base: Path, copies: seq<Copy>)
    requires Executes(t, CopyAllOps(os, base, copies))
    ensures forall c :: c in copies ==> Acceptable(c)
    ensures Files(After(t, CopyAllOps(os, base, copies))) == Files(t) + Copied(base, copies)
    ensures Files(t).Keys !! Copied(base, copies).Keys
    decreases |copies|
  {
    if copies != [] {
      var c, rest := copies[0], copies[1..];
      AfterConcat(t, CopyOps(os, base, c), CopyAllOps(os, base, rest));
      CopyEffect(os, t, base, c);
      CopiesEffect(os, After(t, CopyOps(os, base, c)), base, rest);
      assert forall d :: d in copies ==> d == c || d in rest;
      AddFirst(Files(t), Target(base, c), c.data.value, Copied(base, rest));
    }
  }

  lemma AddFirst(files: map<Path, Bytes>, p: Path, data: Bytes, more: map<Path, Bytes>)
    requires p !in files && files[p := data].Keys !! more.Keys
    ensures files[p := data] + more == files + (map[p := data] + more)
    ensures files.Keys !! (map[p := data] + more).Keys
  {
  }

  ghost predicate DistinctPaths(copies: seq<Copy>) {
    forall i, j :: 0 <= i < j < |copies| ==> copies[i].path != copies[j].path
  }

  /** Listing one path twice cannot get past the exclusive create. */
  lemma {:induction false} CopiesDistinct(os: System, t: Tree, base: Path, copies: seq<Copy>)
    requires Executes(t, CopyAllOps(os, base, copies))
    ensures DistinctPaths(copies)
    decreases |copies|
  {
    if copies != [] {
      var c, rest := copies[0], copies[1..];
      var u := After(t, CopyOps(os, base, c));
      AfterConcat(t, CopyOps(os, base, c), CopyAllOps(os, base, rest));
      CopyEffect(os, t, base, c);
      CopiesEffect(os, u, base, rest);
      CopiesDistinct(os, u, base, rest);
      assert Target(base, c) in Files(u);
      forall i | 0 <= i < |rest| ensures rest[i].path != c.path {
        assert rest[i] in rest;
        CopiedHas(base, rest, i);
      }
    }
  }

  lemma {:induction false} CopiedHas(base: Path, copies: seq<Copy>, i: nat)
    requires i < |copies| && copies[i].data.Some?
    ensures Target(base, copies[i]) in Copied(base, copies)
  {
    if i > 0 {
      CopiedHas(base, copies[1..], i - 1);
    }
  }

  lemma {:induction false} CopiedOnly(base: Path, copies: seq<Copy>, p: Path) returns (i: nat)
    requires p in Copied(base, copies)
    ensures i < |copies| && p == Target(base, copies[i]) && copies[i].data == Some(Copied(base, copies)[p])
  {
    if p in Copied(base, copies[1..]) {
      i := CopiedOnly(base, copies[1..], p);
      i := i + 1;
    } else {
      i := 0;
    }
  }

  lemma TargetInjective(base: Path, c: Copy, d: Copy)
    requires Target(base, c) == Target(base, d)
    ensures c.path == d.path
  {
    assert Split(c.path, '/') == Target(base, c)[|base|..];
    assert Split(d.path, '/') == Target(base, d)[|base|..];
    JoinOfSplit(c.path, '/');
    JoinOfSplit(d.path, '/');
  }

  lemma CopiedAt(base: Path, copies: seq<Copy>, i: nat)
    requires i < |copies| && copies[i].data.Some? && DistinctPaths(copies)
    ensures Target(base, copies[i]) in Copied(base, copies)
    ensures Copied(base, copies)[Target(base, copies[i])] == copies[i].data.value
  {
    CopiedHas(base, copies, i);
    var k := CopiedOnly(base, copies, Target(base, copies[i]));
    TargetInjective(base, copies[i], copies[k]);
    assert k == i;
  }

  lemma CopyTouches(os: System, base: Path, c: Copy, name: string)
    requires Target(base, c)[0] != name
    ensures NoneTouch(CopyOps(os, base, c), name)
  {
    var to := Target(base, c);
    if c.data.Some? {
      AppendsTouch(os, to, c.data.value, 0, name);
      var body := CopyBody(os, to, c.data.value);
      assert NoneTouch(body, name);
      assert CopyOps(os, base, c) ==
             Guard(SafeRelativePath(c.path)) + [MakeDirs(Parent(to))] + (body + Guard(c.accepted));
    }
  }

  lemma {:induction false} CopiesTouch(os: System, base: Path, copies: seq<Copy>, name: string)
    requires base != [] ==> base[0] != name
    requires base == [] ==> forall c :: c in copies ==> Split(c.path, '/')[0] != name
    ensures NoneTouch(CopyAllOps(os, base, copies), name)
    decreases |copies|
  {
    if copies != [] {
      assert copies[0] in copies && forall c :: c in copies[1..] ==> c in copies;
      CopiesTouch(os, base, copies[1..], name);
      CopyTouches(os, base, copies[0], name);
    }
  }

  // --------------------------------------------------------- executability

  /** Nothing stands in the way of the copies, neither on disk nor among themselves. */
  ghost predicate Fits(t: Tree, base: Path, copies: seq<Copy>) {
    && (forall c :: c in copies ==> Acceptable(c) && Target(base, c) !in t)
    && (forall c, q :: c in copies && q in t && q <= Target(base, c) ==> t[q].Dir?)
    && DistinctPaths(copies)
    && (forall c, d :: c in copies && d in copies && Target(base, c) <= Target(base, d) ==> c.path == d.path)
  }

  lemma ParentsFit(t: Tree, to: Path)
    requires to != [] && ValidPath(to) && forall q :: q in t && q <= to ==> t[q].Dir?
    ensures Enabled(t, MakeDirs(Parent(to)))
    ensures to !in t ==> Enabled(Apply(t, MakeDirs(Parent(to))), CreateNew(to))
  {
    forall q | q in t && q <= Parent(to) ensures t[q].Dir? {
      assert q <= to;
    }
    assert forall name :: name in Parent(to) ==> name in to;
    assert Parent(to) in Prefixes(Parent(to));
  }

  lemma CopyRuns(os: System, t: Tree, base: Path, c: Copy)
    requires ValidPath(base) && Acceptable(c) && Target(base, c) !in t
    requires forall q :: q in t && q <= Target(base, c) ==> t[q].Dir?
    ensures Executes(t, CopyOps(os, base, c))
    ensures After(t, CopyOps(os, base, c)) ==
            Apply(t, MakeDirs(Parent(Target(base, c))))[Target(base, c) := File(c.data.value)]
  {
    var to := Target(base, c);
    SafePathStaysInside(c.path);
    assert ValidPath(to);
    ParentsFit(t, to);
    var u := Apply(t, MakeDirs(Parent(to)));
    assert CopyOps(os, base, c) == [MakeDirs(Parent(to))] + CopyBody(os, to, c.data.value);
    AfterConcat(t, [MakeDirs(Parent(to))], CopyBody(os, to, c.data.value));
    AfterOne(t, MakeDirs(Parent(to)));
    CopyBodyEffect(os, u, to, c.data.value);
  }

  lemma {:induction false} CopiesRun(os: System, t: Tree, base: Path, copies: seq<Copy>)
    requires ValidPath(base) && Fits(t, base, copies)
    ensures Executes(t, CopyAllOps(os, base, copies))
    decreases |copies|
  {
    if copies != [] {
      var c, rest := copies[0], copies[1..];
      assert c in copies;
      CopyRuns(os, t, base, c);
      StillFits(os, t, base, copies);
      CopiesRun(os, After(t, CopyOps(os, base, c)), base, rest);
      AfterConcat(t, CopyOps(os, base, c), CopyAllOps(os, base, rest));
    }
  }

  lemma OthersAreApart(base: Path, copies: seq<Copy>, d: Copy)
    requires copies != [] && DistinctPaths(copies) && d in copies[1..]
    requires forall x, y :: x in copies && y in copies && Target(base, x) <= Target(base, y) ==> x.path == y.path
    ensures !(Target(base, copies[0]) <= Target(base, d)) && !(Target(base, d) <= Target(base, copies[0]))
  {
    var i :| 0 <= i < |copies| - 1 && copies[1..][i] == d;
    assert copies[i + 1] == d && copies[0].path != copies[i + 1].path;
    assert d in copies && copies[0] in copies;
  }

  /** `u` is `t` with one more file, and directories on the way to it. */
  ghost predicate Extended(t: Tree, u: Tree, to: Path) {
    forall q :: q in u && q != to ==> (q in t && u[q] == t[q]) || (u[q].Dir? && q <= to)
  }

  lemma RestFits(t: Tree, u: Tree, base: Path, copies: seq<Copy>)
    requires copies != [] && Fits(t, base, copies) && Extended(t, u, Target(base, copies[0]))
    ensures Fits(u, base, copies[1..])
  {
    var to, rest := Target(base, copies[0]), copies[1..];
    assert forall d :: d in rest ==> d in copies;
    forall d | d in rest ensures !(to <= Target(base, d)) && !(Target(base, d) <= to) {
      OthersAreApart(base, copies, d);
    }
    assert DistinctPaths(rest) by {
      assert forall i :: 0 <= i < |rest| ==> rest[i] == copies[i + 1];
    }
    forall d | d in rest ensures Acceptable(d) && Target(base, d) !in u {
    }
    forall d, q | d in rest && q in u && q <= Target(base, d) ensures u[q].Dir? {
    }
  }

  lemma StillFits(os: System, t: Tree, base: Path, copies: seq<Copy>)
    requires copies != [] && ValidPath(base) && Fits(t, base, copies)
    ensures Fits(After(t, CopyOps(os, base, copies[0])), base, copies[1..])
  {
    assert copies[0] in copies;
    CopyRuns(os, t, base, copies[0]);
    RestFits(t, After(t, CopyOps(os, base, copies[0])), base, copies);
  }

  // ------------------------------------------------------------------- disk

  /** Two operation logs: `now` extends `before` by a prefix of `ops`, all of it when `ok`. */
  ghost predicate Ran(before: seq<Op>, now: seq<Op>, ops: seq<Op>, ok: bool) {
    before <= now && now <= before + ops && (ok ==> now == before + ops)
  }

  lemma RanThen(a: seq<Op>, b: seq<Op>, c: seq<Op>, first: seq<Op>, second: seq<Op>, ok: bool)
    requires Ran(a, b, first, true) && Ran(b, c, second, ok)
    ensures Ran(a, c, first + second, ok)
  {
    assert a + (first + second) == b + second;
  }

  lemma RanShort(a: seq<Op>, b: seq<Op>, first: seq<Op>, second: seq<Op>)
    requires Ran(a, b, first, false)
    ensures Ran(a, b, first + second, false)
  {
    assert a + (first + second) == (a + first) + second;
  }

  /** Failures a maintenance command reports. */
  datatype Failure =
    | Io
    | NotInitialized
    | RestoreInProgress
    | DestinationHoldsBackup
    | DestinationNotEmpty
    | InsufficientSpace(required: nat, available: nat)
    | MissingComponent(path: string)
    | UnsafePath(path: string)
    | ChecksumMismatch(path: string)
    | Unusable
    | InvalidManifest
    | NoManifest
    | InvalidFilename
    | IncompatibleVersion
    | BadRecord

  /**
   * A directory tree under modification.  `fuse` is how many more operations
   * the process survives; nothing is known about it, so every statement about
   * a command covers its being cut off anywhere.
   */
  class Disk {
    ghost const base: Tree
    ghost var log: seq<Op>
    var tree: Tree
    var fuse: nat

    // Quantified, so that the log is only replayed where a proof names the replay.
    ghost predicate Valid()
      reads this
    {
      forall t {:trigger Executes(t, log)} :: t == base ==> Executes(t, log) && tree == After(t, log)
    }

    constructor (t: Tree, lifetime: nat)
      ensures Valid() && base == t && tree == t && log == [] && fuse == lifetime
    {
      base, tree, log, fuse := t, t, [], lifetime;
    }

    method Do(op: Op) returns (ok: bool)
      requires Valid()
      modifies this
      ensures Valid()
      ensures ok ==> log == old(log) + [op] && tree == Apply(old(tree), op)
      ensures !ok ==> log == old(log) && tree == old(tree)
      ensures Ran(old(log), log, [op], ok)
    {
      if fuse == 0 || !Enabled(tree, op) {
        return false;
      }
      assert Executes(base, log) && tree == After(base, log);
      AfterSnoc(base, log, op);
      tree, log, fuse := Apply(tree, op), log + [op], fuse - 1;
      ok := true;
    }
  }

  method WriteAll(os: System, disk: Disk, p: Path, data: Bytes) returns (ok: bool)
    requires disk.Valid()
    modifies disk
    ensures disk.Valid()
    ensures Ran(old(disk.log), disk.log, Appends(os, p, data, 0), ok)
  {
    var at := 0;
    ghost var before := disk.log;
    assert before + Appends(os, p, data, 0) == disk.log + Appends(os, p, data, 0);
    while at < |data|
      invariant at <= |data| && disk.Valid()
      invariant before <= disk.log
      invariant before + Appends(os, p, data, 0) == disk.log + Appends(os, p, data, at)
    {
      var n := Chunk(os, data, at);
      ok := disk.Do(Append(p, data[at..at + n]));
      if !ok {
        return;
      }
      at := at + n;
    }
    ok := true;
  }

  method WriteDurable(os: System, disk: Disk, p: Path, data: Bytes) returns (ok: bool)
    requires disk.Valid()
    modifies disk
    ensures disk.Valid()
    ensures Ran(old(disk.log), disk.log, WriteOps(os, p, data), ok)
  {
    ghost var before := disk.log;
    ok := disk.Do(Truncate(p));
    if !ok {
      RanShort(before, disk.log, [Truncate(p)], Appends(os, p, data, 0));
      return;
    }
    ghost var between := disk.log;
    ok := WriteAll(os, disk, p, data);
    RanThen(before, between, disk.log, [Truncate(p)], Appends(os, p, data, 0), ok);
  }

  /** Copies one file chunk by chunk, returning the size and digest of what was read. */
  method CopyWithChecksum(os: System, digest: Bytes -> string, source: Option<Bytes>, disk: Disk, to: Path)
    returns (r: Option<(nat, string)>)
    requires disk.Valid()
    modifies disk
    ensures disk.Valid()
    ensures Ran(old(disk.log), disk.log, if source.None? then [Stop] else CopyBody(os, to, source.value), r.Some?)
    ensures r.Some? ==> source.Some? && r.value == (Size(source.value), digest(source.value))
  {
    if source.None? {
      return None;
    }
    var data := source.value;
    ghost var before := disk.log;
    var ok := disk.Do(CreateNew(to));
    if !ok {
      RanShort(before, disk.log, [CreateNew(to)], Appends(os, to, data, 0));
      return None;
    }
    ghost var between := disk.log;
    r := CopyChunks(os, digest, data, disk, to);
    RanThen(before, between, disk.log, [CreateNew(to)], Appends(os, to, data, 0), r.Some?);
  }

  /** The read, hash, write loop. */
  method CopyChunks(os: System, digest: Bytes -> string, data: Bytes, disk: Disk, to: Path)
    returns (r: Option<(nat, string)>)
    requires disk.Valid()
    modifies disk
    ensures disk.Valid()
    ensures Ran(old(disk.log), disk.log, Appends(os, to, data, 0), r.Some?)
    ensures r.Some? ==> r.value == (Size(data), digest(data))
  {
    var size, hashed, at := 0, [], 0;
    ghost var before := disk.log;
    while at < |data|
      invariant at <= |data| && disk.Valid()
      invariant before <= disk.log
      invariant before + Appends(os, to, data, 0) == disk.log + Appends(os, to, data, at)
      invariant hashed == data[..at] && size == Size(data[..at])
    {
      var n := Chunk(os, data, at);
      var ok := disk.Do(Append(to, data[at..at + n]));
      if !ok {
        return None;
      }
      hashed := hashed + data[at..at + n];
      size := SaturatingAdd(size, n);
      at := at + n;
    }
    assert data[..at] == data;
    r := Some((size, digest(hashed)));
  }
}
