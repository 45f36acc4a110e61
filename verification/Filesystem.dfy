/**
 * A directory tree and the primitive operations the maintenance commands issue
 * against it.
 *
 * Every command is described by a script, the list of operations it means to
 * perform.  A crash, an I/O failure and an early error return all leave the
 * tree after some executed prefix of that script, so a statement about every
 * prefix is a statement about every interruption.
 */
module Filesystem {

  newtype Byte = b: int | 0 <= b < 256

  type Bytes = seq<Byte>

  type Path = seq<string>

  datatype Entry = Dir | File(data: Bytes)

  type Tree = map<Path, Entry>

  /** Names an operating system can hold: one segment, never a traversal. */
  predicate ValidName(name: string) {
    name != "" && name != "." && name != ".." && '/' !in name && '\0' !in name
  }

  predicate ValidPath(p: Path) {
    forall name :: name in p ==> ValidName(name)
  }

  function Parent(p: Path): Path
    requires p != []
  {
    p[..|p| - 1]
  }

  predicate IsFile(t: Tree, p: Path) {
    p in t && t[p].File?
  }

  predicate IsDir(t: Tree, p: Path) {
    p in t && t[p].Dir?
  }

  /** Every entry sits in a directory, and every name is one the system allows. */
  ghost predicate WellFormed(t: Tree) {
    && (forall p :: p in t ==> ValidPath(p))
    && (forall p :: p in t && p != [] ==> IsDir(t, Parent(p)))
  }

  /** Nothing lies strictly beneath `p`. */
  predicate Childless(t: Tree, p: Path) {
    forall q :: q in t && p <= q ==> q == p
  }

  predicate Vacant(t: Tree, p: Path) {
    forall q :: q in t ==> !(p <= q)
  }

  /** The regular files of a tree and their contents. */
  function Files(t: Tree): (files: map<Path, Bytes>) {
    map p | p in t && t[p].File? :: t[p].data
  }

  datatype Op =
    | MakeDirs(path: Path)              // create_dir_all
    | MakeDir(path: Path)               // create_dir
    | CreateNew(path: Path)             // open with create_new
    | Truncate(path: Path)              // open with create and truncate
    | Append(path: Path, data: Bytes)   // one write
    | Unlink(path: Path)                // remove a file or an empty directory
    | Rename(path: Path, target: Path)
    | Stop                              // a refused check: never performed

  predicate Enabled(t: Tree, op: Op) {
    match op
    case MakeDirs(p) => ValidPath(p) && forall q :: q in t && q <= p ==> t[q].Dir?
    case MakeDir(p) => p != [] && ValidPath(p) && p !in t && IsDir(t, Parent(p))
    case CreateNew(p) => p != [] && ValidPath(p) && p !in t && IsDir(t, Parent(p))
    case Truncate(p) => p != [] && ValidPath(p) && !IsDir(t, p) && IsDir(t, Parent(p))
    case Append(p, _) => IsFile(t, p)
    case Unlink(p) => p in t && Childless(t, p)
    case Rename(a, b) =>
      a in t && a != [] && b != [] && ValidPath(b) && !(a <= b) && IsDir(t, Parent(b)) && Vacant(t, b)
    case Stop => false
  }

  function Prefixes(p: Path): (s: set<Path>)
    ensures forall q :: q in s <==> q <= p
  {
    assert forall q: Path :: q <= p ==> q == p[..|q|];
    set i | 0 <= i <= |p| :: p[..i]
  }

  function Moved(t: Tree, a: Path, b: Path): set<Path> {
    set q | q in t && a <= q :: b + q[|a|..]
  }

  function Apply(t: Tree, op: Op): Tree {
    match op
    case MakeDirs(p) => map q | q in t.Keys + Prefixes(p) :: if q in t then t[q] else Dir
    case MakeDir(p) => t[p := Dir]
    case CreateNew(p) => t[p := File([])]
    case Truncate(p) => t[p := File([])]
    case Append(p, data) => if IsFile(t, p) then t[p := File(t[p].data + data)] else t
    case Unlink(p) => t - {p}
    case Rename(a, b) =>
      map q | q in (t.Keys - (set r | r in t && a <= r)) + Moved(t, a, b) ::
        if q in Moved(t, a, b) && a + q[|b|..] in t then t[a + q[|b|..]] else if q in t then t[q] else Dir
    case Stop => t
  }

  function After(t: Tree, ops: seq<Op>): Tree
    decreases |ops|
  {
    if ops == [] then t else After(Apply(t, ops[0]), ops[1..])
  }

  /** Every operation of `ops` succeeds when performed in order from `t`. */
  predicate Executes(t: Tree, ops: seq<Op>)
    decreases |ops|
  {
    ops == [] || (Enabled(t, ops[0]) && Executes(Apply(t, ops[0]), ops[1..]))
  }

  /** A check in the middle of a script: nothing when it holds, the end when it does not. */
  function Guard(holds: bool): seq<Op> {
    if holds then [] else [Stop]
  }

  lemma {:induction false} AfterConcat(t: Tree, first: seq<Op>, second: seq<Op>)
    ensures After(t, first + second) == After(After(t, first), second)
    ensures Executes(t, first + second) <==> Executes(t, first) && Executes(After(t, first), second)
    decreases |first|
  {
    if first == [] {
      assert first + second == second;
    } else {
      assert (first + second)[1..] == first[1..] + second;
      AfterConcat(Apply(t, first[0]), first[1..], second);
    }
  }

  lemma AfterOne(t: Tree, op: Op)
    ensures After(t, [op]) == Apply(t, op)
    ensures Executes(t, [op]) <==> Enabled(t, op)
  {
    assert [op][1..] == [];
  }

  lemma AfterSnoc(t: Tree, ops: seq<Op>, op: Op)
    ensures After(t, ops + [op]) == Apply(After(t, ops), op)
    ensures Executes(t, ops + [op]) <==> Executes(t, ops) && Enabled(After(t, ops), op)
  {
    AfterConcat(t, ops, [op]);
    AfterOne(After(t, ops), op);
  }

  /** A script interrupted before its end executed what came first. */
  lemma ExecutesPrefix(t: Tree, done: seq<Op>, script: seq<Op>)
    requires done <= script
    requires Executes(t, script)
    ensures Executes(t, done)
  {
    assert script == done + script[|done|..];
    AfterConcat(t, done, script[|done|..]);
  }

  // ---------------------------------------------------------------- renames

  lemma RenameEffect(t: Tree, a: Path, b: Path, q: Path)
    requires Enabled(t, Rename(a, b))
    ensures b <= q ==> (q in Apply(t, Rename(a, b)) <==> a + q[|b|..] in t)
    ensures b <= q && a + q[|b|..] in t ==> Apply(t, Rename(a, b))[q] == t[a + q[|b|..]]
    ensures a <= q ==> q !in Apply(t, Rename(a, b))
    ensures !(a <= q) && !(b <= q) ==> (q in Apply(t, Rename(a, b)) <==> q in t)
    ensures !(a <= q) && !(b <= q) && q in t ==> Apply(t, Rename(a, b))[q] == t[q]
  {
    if b <= q {
      assert q == b + q[|b|..];
      var s := a + q[|b|..];
      assert s[|a|..] == q[|b|..];
      if s in t {
        assert q in Moved(t, a, b);
      }
      assert forall r: Path :: a <= r && q == b + r[|a|..] ==> r == s;
    }
    assert b <= q && a <= q ==> a <= b || b <= a;
  }

  // ------------------------------------------------------- well-formedness

  lemma ParentIsShorter(q: Path)
    requires q != []
    ensures Parent(q) <= q && Parent(q) != q
  {
  }

  lemma MakeDirsWellFormed(t: Tree, p: Path)
    requires WellFormed(t) && Enabled(t, MakeDirs(p))
    ensures WellFormed(Apply(t, MakeDirs(p)))
  {
    var u := Apply(t, MakeDirs(p));
    forall q | q in u ensures ValidPath(q) && (q != [] ==> IsDir(u, Parent(q))) {
      if q !in t {
        assert q <= p;
        assert forall name :: name in q ==> name in p;
        if q != [] { assert Parent(q) <= p; }
      }
    }
  }

  /** Adding an entry to a directory, or giving a file new contents. */
  lemma EntryWellFormed(t: Tree, p: Path, e: Entry)
    requires WellFormed(t) && ValidPath(p) && !IsDir(t, p) && (p in t || (p != [] && IsDir(t, Parent(p))))
    ensures WellFormed(t[p := e])
  {
    var u := t[p := e];
    forall q | q in u && q != [] ensures IsDir(u, Parent(q)) {
      ParentIsShorter(q);
      assert q in t ==> IsDir(t, Parent(q));
      assert IsDir(t, Parent(q)) && Parent(q) != p;
    }
  }

  lemma UnlinkWellFormed(t: Tree, p: Path)
    requires WellFormed(t) && Enabled(t, Unlink(p))
    ensures WellFormed(t - {p})
  {
    forall q | q in t - {p} && q != [] ensures IsDir(t - {p}, Parent(q)) {
      ParentIsShorter(q);
      assert Parent(q) != p;
    }
  }

  lemma ApplyWellFormed(t: Tree, op: Op)
    requires WellFormed(t) && Enabled(t, op)
    ensures WellFormed(Apply(t, op))
  {
    match op
    case MakeDirs(p) => MakeDirsWellFormed(t, p);
    case MakeDir(p) => EntryWellFormed(t, p, Dir);
    case CreateNew(p) => EntryWellFormed(t, p, File([]));
    case Truncate(p) => EntryWellFormed(t, p, File([]));
    case Append(p, data) => EntryWellFormed(t, p, File(t[p].data + data));
    case Unlink(p) => UnlinkWellFormed(t, p);
    case Rename(a, b) =>
      var u := Apply(t, Rename(a, b));
      forall q | q in u ensures ValidPath(q) && (q != [] ==> IsDir(u, Parent(q))) {
        RenameWellFormed(t, a, b, q);
      }
    case Stop =>
  }

  lemma RenameWellFormed(t: Tree, a: Path, b: Path, q: Path)
    requires WellFormed(t) && Enabled(t, Rename(a, b))
    requires q in Apply(t, Rename(a, b))
    ensures ValidPath(q)
    ensures q != [] ==> IsDir(Apply(t, Rename(a, b)), Parent(q))
  {
    RenameEffect(t, a, b, q);
    if b <= q && q != b {
      MovedWellFormed(t, a, b, q);
    } else if q == b {
      RenameEffect(t, a, b, Parent(b));
      ParentIsShorter(b);
    } else if q != [] {
      RenameEffect(t, a, b, Parent(q));
      ParentIsShorter(q);
    }
  }

  lemma ParentMoves(a: Path, b: Path, q: Path)
    requires b <= q && q != b
    ensures b <= Parent(q) && Parent(a + q[|b|..]) == a + Parent(q)[|b|..] && a + q[|b|..] != []
  {
  }

  lemma MovedNames(a: Path, b: Path, q: Path)
    requires b <= q && ValidPath(b) && ValidPath(a + q[|b|..])
    ensures ValidPath(q)
  {
    assert q == b + q[|b|..];
    assert forall name :: name in q ==> name in b || name in a + q[|b|..];
  }

  /** What moved along keeps its place below the new name. */
  lemma MovedWellFormed(t: Tree, a: Path, b: Path, q: Path)
    requires WellFormed(t) && Enabled(t, Rename(a, b)) && b <= q && q != b
    requires q in Apply(t, Rename(a, b))
    ensures ValidPath(q) && IsDir(Apply(t, Rename(a, b)), Parent(q))
  {
    RenameEffect(t, a, b, q);
    ParentMoves(a, b, q);
    MovedNames(a, b, q);
    RenameEffect(t, a, b, Parent(q));
  }

  lemma {:induction false} AfterWellFormed(t: Tree, ops: seq<Op>)
    requires WellFormed(t) && Executes(t, ops)
    ensures WellFormed(After(t, ops))
    decreases |ops|
  {
    if ops != [] {
      ApplyWellFormed(t, ops[0]);
      AfterWellFormed(Apply(t, ops[0]), ops[1..]);
    }
  }

  // ------------------------------------------------------------------ frame

  /** `op` may change paths whose first segment is `name`. */
  predicate Touches(op: Op, name: string) {
    match op
    case Rename(a, b) => a == [] || b == [] || a[0] == name || b[0] == name
    case Stop => false
    case _ => op.path != [] && op.path[0] == name
  }

  predicate NoneTouch(ops: seq<Op>, name: string) {
    forall op :: op in ops ==> !Touches(op, name)
  }

  ghost predicate SameAt(t: Tree, u: Tree, p: Path) {
    (p in t <==> p in u) && (p in t ==> t[p] == u[p])
  }

  ghost predicate SameUnder(t: Tree, u: Tree, name: string) {
    forall p: Path :: p != [] && p[0] == name ==> SameAt(t, u, p)
  }

  lemma {:induction false} Frame(t: Tree, ops: seq<Op>, name: string)
    requires Executes(t, ops) && NoneTouch(ops, name)
    ensures SameUnder(t, After(t, ops), name)
    decreases |ops|
  {
    if ops != [] {
      FrameOne(t, ops[0], name);
      Frame(Apply(t, ops[0]), ops[1..], name);
      forall p: Path | p != [] && p[0] == name
        ensures SameAt(t, After(t, ops), p)
      {
        assert SameAt(t, Apply(t, ops[0]), p);
        assert SameAt(Apply(t, ops[0]), After(t, ops), p);
      }
    }
  }

  lemma FrameOne(t: Tree, op: Op, name: string)
    requires Enabled(t, op) && !Touches(op, name)
    ensures SameUnder(t, Apply(t, op), name)
  {
    forall p: Path | p != [] && p[0] == name
      ensures SameAt(t, Apply(t, op), p)
    {
      match op
      case Rename(a, b) => RenameEffect(t, a, b, p);
      case _ =>
    }
  }

  // --------------------------------------------------------------- removals

  /** Any order in which `remove_dir_all` may take a directory apart: children first. */
  ghost predicate IsRemovalOrder(t: Tree, root: Path, order: seq<Path>) {
    && (forall q :: q in order <==> q in t && root <= q)
    && (forall i, j :: 0 <= i < j < |order| ==> !(order[i] <= order[j]))
  }

  function Unlinks(order: seq<Path>): (ops: seq<Op>)
    ensures |ops| == |order|
    ensures forall i :: 0 <= i < |ops| ==> ops[i] == Unlink(order[i])
  {
    seq(|order|, i requires 0 <= i < |order| => Unlink(order[i]))
  }

  lemma {:induction false} AfterUnlinks(t: Tree, order: seq<Path>)
    ensures After(t, Unlinks(order)) == t - (set q | q in order)
  {
    if order == [] {
      assert t - (set q | q in order) == t;
    } else {
      assert Unlinks(order)[1..] == Unlinks(order[1..]);
      AfterUnlinks(t - {order[0]}, order[1..]);
      assert (set q | q in order) == {order[0]} + (set q | q in order[1..]);
    }
  }

  /** Children first means every directory is empty when its turn comes. */
  lemma {:induction false} RemovalExecutes(t: Tree, root: Path, order: seq<Path>, k: nat)
    requires IsRemovalOrder(t, root, order) && k <= |order|
    ensures Executes(t, Unlinks(order[..k]))
  {
    if k > 0 {
      RemovalExecutes(t, root, order, k - 1);
      RemovalStep(t, root, order, k - 1);
      assert Unlinks(order[..k]) == Unlinks(order[..k - 1]) + [Unlink(order[k - 1])];
      AfterSnoc(t, Unlinks(order[..k - 1]), Unlink(order[k - 1]));
    }
  }

  lemma RemovalStep(t: Tree, root: Path, order: seq<Path>, k: nat)
    requires IsRemovalOrder(t, root, order) && k < |order|
    ensures Enabled(After(t, Unlinks(order[..k])), Unlink(order[k]))
  {
    AfterUnlinks(t, order[..k]);
    var u := After(t, Unlinks(order[..k]));
    assert order[k] in order;
    forall q | q in u && order[k] <= q ensures q == order[k] {
      assert q in order && q !in order[..k];
      var j :| 0 <= j < |order| && order[j] == q;
      assert j >= k;
    }
  }

  // ------------------------------------------------------------------- disk

  /**
   * What the operating system decides for itself: directory order, deletion
   * order, and how many bytes one read or write moves.  A run is stated for
   * every `System`.
   */
  datatype System = System(
    names: (Tree, Path) -> seq<string>,
    removal: (Tree, Path) -> seq<Path>,
    chunk: (Bytes, nat) -> nat)

  ghost predicate Distinct<T>(s: seq<T>) {
    forall i, j :: 0 <= i < j < |s| ==> s[i] != s[j]
  }

  /** One complete reading of a directory, in whatever order it came. */
  ghost predicate Lists(t: Tree, d: Path, names: seq<string>) {
    Distinct(names) && forall n :: n in names <==> d + [n] in t
  }

  ghost predicate Lawful(os: System) {
    && (forall t: Tree, d: Path {:trigger os.names(t, d)} :: Lists(t, d, os.names(t, d)))
    && (forall t: Tree, d: Path {:trigger os.removal(t, d)} :: IsRemovalOrder(t, d, os.removal(t, d)))
  }

  /** `remove_directory_if_present`. */
  function RemoveOps(os: System, t: Tree, root: Path): seq<Op> {
    if root !in t then []
    else if t[root].File? then [Stop]
    else Unlinks(os.removal(t, root))
  }

  lemma RemoveEffect(os: System, t: Tree, root: Path)
    requires Lawful(os) && WellFormed(t)
    requires Executes(t, RemoveOps(os, t, root))
    ensures After(t, RemoveOps(os, t, root)) == t - (set q | q in t && root <= q)
    ensures Vacant(After(t, RemoveOps(os, t, root)), root)
  {
    if root !in t {
      VacantBelow(t, root);
      assert t - (set q | q in t && root <= q) == t;
    } else if t[root].Dir? {
      var order := os.removal(t, root);
      assert IsRemovalOrder(t, root, order);
      AfterUnlinks(t, order);
      assert (set q | q in order) == (set q | q in t && root <= q);
    }
  }

  lemma RemoveRuns(os: System, t: Tree, root: Path)
    requires Lawful(os) && !IsFile(t, root)
    ensures Executes(t, RemoveOps(os, t, root))
  {
    if root in t {
      var order := os.removal(t, root);
      assert IsRemovalOrder(t, root, order);
      RemovalExecutes(t, root, order, |order|);
      assert order[..|order|] == order;
    }
  }

  /** In a well-formed tree nothing lies beneath an absent path. */
  lemma VacantBelow(t: Tree, root: Path)
    requires WellFormed(t) && root !in t
    ensures Vacant(t, root)
  {
    forall q | q in t ensures !(root <= q) {
      NotBelow(t, root, q);
    }
  }

  lemma {:induction false} NotBelow(t: Tree, root: Path, q: Path)
    requires WellFormed(t) && root !in t && q in t
    ensures !(root <= q)
    decreases |q|
  {
    if root <= q {
      assert q != root;
      assert root <= Parent(q);
      NotBelow(t, root, Parent(q));
    }
  }

  /** Proper ancestors of anything present are directories. */
  lemma {:induction false} AncestorsAreDirs(t: Tree, a: Path, q: Path)
    requires WellFormed(t) && q in t && a <= q && a != q
    ensures IsDir(t, a)
    decreases |q|
  {
    if a != Parent(q) {
      assert a <= Parent(q);
      AncestorsAreDirs(t, a, Parent(q));
    }
  }

  /** Files never lie below one another. */
  lemma FilesAreLeaves(t: Tree, p: Path, q: Path)
    requires WellFormed(t) && IsFile(t, p) && IsFile(t, q) && p <= q
    ensures p == q
  {
    if p != q {
      AncestorsAreDirs(t, p, q);
    }
  }

  lemma RemoveTouchesOnly(os: System, t: Tree, root: Path, name: string)
    requires Lawful(os) && root != [] && root[0] != name
    ensures NoneTouch(RemoveOps(os, t, root), name)
  {
    if root in t && t[root].Dir? {
      var order := os.removal(t, root);
      assert IsRemovalOrder(t, root, order);
      forall op | op in Unlinks(order) ensures !Touches(op, name) {
        var i :| 0 <= i < |order| && op == Unlink(order[i]);
        assert order[i] in order;
      }
    }
  }
}
