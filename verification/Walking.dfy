/** The iterative directory walk every command starts from. */
module Walking {
  import opened Wrappers
  import opened Filesystem

  /** No pending directory lies at or below another one. */
  ghost predicate Antichain(pending: seq<Path>) {
    && Distinct(pending)
    && forall p, q :: p in pending && q in pending && p <= q ==> p == q
  }

  ghost predicate Leads(pending: seq<Path>, q: Path) {
    exists d :: d in pending && d <= q
  }

  /** Everything the pending directories can still lead to. */
  ghost function Reach(t: Tree, pending: seq<Path>): set<Path> {
    set q | q in t && Leads(pending, q)
  }

  function DirsIn(t: Tree, d: Path, names: seq<string>): seq<Path> {
    if names == [] then []
    else (if IsDir(t, d + [names[0]]) then [d + [names[0]]] else []) + DirsIn(t, d, names[1..])
  }

  function FilesIn(t: Tree, d: Path, names: seq<string>): seq<Path> {
    if names == [] then []
    else (if IsFile(t, d + [names[0]]) then [d + [names[0]]] else []) + FilesIn(t, d, names[1..])
  }

  lemma {:induction false} Picked(t: Tree, d: Path, names: seq<string>, p: Path)
    ensures p in DirsIn(t, d, names) <==> IsDir(t, p) && |p| == |d| + 1 && d <= p && p[|d|] in names
    ensures p in FilesIn(t, d, names) <==> IsFile(t, p) && |p| == |d| + 1 && d <= p && p[|d|] in names
  {
    if names != [] {
      Picked(t, d, names[1..], p);
      if |p| == |d| + 1 && d <= p {
        assert p == d + [p[|d|]];
      }
    }
  }

  lemma {:induction false} PickedAreDistinct(t: Tree, d: Path, names: seq<string>)
    requires Distinct(names)
    ensures Distinct(DirsIn(t, d, names)) && Distinct(FilesIn(t, d, names))
  {
    if names != [] {
      PickedAreDistinct(t, d, names[1..]);
      Picked(t, d, names[1..], d + [names[0]]);
      assert names[0] !in names[1..];
    }
  }

  lemma ChildPrefixes(p: Path, d: Path, c: Path)
    requires d <= c && |c| == |d| + 1
    ensures p <= c <==> p <= d || p == c
    ensures c <= p ==> d <= p && d != p
  {
    if p <= c && |p| > |d| {
      assert p == c;
    }
  }

  lemma JoinDistinct<T>(a: seq<T>, b: seq<T>)
    requires Distinct(a) && Distinct(b) && forall x :: x in a ==> x !in b
    ensures Distinct(a + b)
  {
    var s := a + b;
    forall i, j | 0 <= i < j < |s| ensures s[i] != s[j] {
      if i < |a| <= j { assert s[i] in a && s[j] in b; }
    }
  }

  lemma NextAntichain(t: Tree, rest: seq<Path>, d: Path, names: seq<string>)
    requires Antichain(rest + [d]) && Distinct(names)
    ensures Antichain(rest + DirsIn(t, d, names))
  {
    var dirs := DirsIn(t, d, names);
    var was, next := rest + [d], rest + dirs;
    assert d in was && forall p :: p in rest ==> p in was;
    LastIsNew(rest, d);
    forall p { Picked(t, d, names, p); }
    forall p, q | p in next && q in next && p <= q ensures p == q {
      if q in dirs {
        ChildPrefixes(p, d, q);
      } else if p in dirs {
        ChildPrefixes(q, d, p);
      }
    }
    PickedAreDistinct(t, d, names);
    assert Distinct(rest) by {
      assert forall i :: 0 <= i < |rest| ==> rest[i] == was[i];
    }
    JoinDistinct(rest, dirs);
  }

  lemma ReachShrinks(t: Tree, rest: seq<Path>, d: Path, names: seq<string>)
    requires Antichain(rest + [d]) && d in t
    ensures Reach(t, rest + DirsIn(t, d, names)) < Reach(t, rest + [d])
  {
    var dirs := DirsIn(t, d, names);
    var was, next := rest + [d], rest + dirs;
    assert d in was;
    LastIsNew(rest, d);
    forall q | q in Reach(t, next) ensures q in Reach(t, was) && q != d {
      var p :| p in next && p <= q;
      Picked(t, d, names, p);
      if p in dirs {
        ChildPrefixes(q, d, p);
      } else {
        assert p in was;
      }
    }
    assert Leads(was, d);
    assert d in Reach(t, was) && d !in Reach(t, next);
  }

  lemma LastIsNew(rest: seq<Path>, d: Path)
    requires Distinct(rest + [d])
    ensures d !in rest
  {
    var was := rest + [d];
    assert forall i :: 0 <= i < |rest| ==> rest[i] == was[i] && was[i] != was[|rest|];
  }

  lemma ReachDrops(t: Tree, rest: seq<Path>, d: Path)
    ensures Reach(t, rest) <= Reach(t, rest + [d])
  {
    assert forall p :: p in rest ==> p in rest + [d];
  }

  /** The walk: pop a directory, queue its directories, keep its files. */
  function Walk(os: System, t: Tree, pending: seq<Path>, found: seq<Path>): Option<seq<Path>>
    requires Lawful(os) && Antichain(pending)
    decreases Reach(t, pending), |pending|
  {
    if pending == [] then Some(found)
    else
      var d, rest := pending[|pending| - 1], pending[..|pending| - 1];
      assert pending == rest + [d];
      if d !in t then
        ReachDrops(t, rest, d);
        assert forall p :: p in rest ==> p in pending;
        Walk(os, t, rest, found)
      else if t[d].File? then None
      else
        NextAntichain(t, rest, d, os.names(t, d));
        ReachShrinks(t, rest, d, os.names(t, d));
        Walk(os, t, rest + DirsIn(t, d, os.names(t, d)), found + FilesIn(t, d, os.names(t, d)))
  }

  /** A file just kept is not met again: no other pending directory leads to it. */
  lemma KeptOnce(t: Tree, rest: seq<Path>, d: Path, names: seq<string>, p: Path)
    requires Antichain(rest + [d])
    requires p in FilesIn(t, d, names)
    ensures !Leads(rest + DirsIn(t, d, names), p) && Leads(rest + [d], p)
  {
    var next, was := rest + DirsIn(t, d, names), rest + [d];
    assert d in was;
    Picked(t, d, names, p);
    LastIsNew(rest, d);
    forall q | q in next ensures !(q <= p) {
      ChildPrefixes(q, d, p);
      if q in rest { assert q in was; } else { Picked(t, d, names, q); }
    }
  }

  /** Reading one directory loses nothing: its subdirectories lead to the rest of it. */
  lemma NothingLost(t: Tree, rest: seq<Path>, d: Path, names: seq<string>, p: Path)
    requires Lists(t, d, names) && WellFormed(t) && IsDir(t, d)
    requires IsFile(t, p) && Leads(rest + [d], p)
    ensures Leads(rest + DirsIn(t, d, names), p) || p in FilesIn(t, d, names)
  {
    var next := rest + DirsIn(t, d, names);
    var q :| q in rest + [d] && q <= p;
    if q in rest {
      assert q in next;
    } else {
      WalkChild(t, d, names, p);
      if c :| c in DirsIn(t, d, names) && c <= p {
        assert c in next;
      }
    }
  }

  lemma NothingAdded(t: Tree, rest: seq<Path>, d: Path, names: seq<string>, p: Path)
    requires Leads(rest + DirsIn(t, d, names), p)
    ensures Leads(rest + [d], p)
  {
    var q :| q in rest + DirsIn(t, d, names) && q <= p;
    Picked(t, d, names, q);
    if q in rest {
      assert q in rest + [d];
    } else {
      assert d in rest + [d];
    }
  }

  lemma WalkChild(t: Tree, d: Path, names: seq<string>, p: Path)
    requires Lists(t, d, names) && WellFormed(t) && IsDir(t, d) && IsFile(t, p) && d <= p
    ensures p in FilesIn(t, d, names) || Leads(DirsIn(t, d, names), p)
  {
    assert |d| < |p| by { assert d != p; }
    var c := p[..|d| + 1];
    assert c == d + [p[|d|]];
    Picked(t, d, names, c);
    if c != p {
      AncestorsAreDirs(t, c, p);
    }
  }

  /**
   * What a walk returns: every regular file the pending directories lead to,
   * once each, on top of what was already found.
   */
  lemma {:induction false} WalkFinds(os: System, t: Tree, pending: seq<Path>, found: seq<Path>)
    requires Lawful(os) && Antichain(pending) && WellFormed(t)
    requires Distinct(found) && forall p :: p in found ==> !Leads(pending, p)
    ensures Walk(os, t, pending, found).Some? <==> forall p :: p in pending ==> !IsFile(t, p)
    ensures Walk(os, t, pending, found).Some? ==>
              var all := Walk(os, t, pending, found).value;
              && Distinct(all)
              && forall p :: p in all <==> p in found || (IsFile(t, p) && Leads(pending, p))
    decreases Reach(t, pending), |pending|
  {
    if pending != [] {
      var d, rest := pending[|pending| - 1], pending[..|pending| - 1];
      assert pending == rest + [d];
      assert forall p :: p in pending <==> p in rest || p == d;
      if d !in t {
        ReachDrops(t, rest, d);
        VacantBelow(t, d);
        WalkFinds(os, t, rest, found);
      } else if t[d].Dir? {
        var names := os.names(t, d);
        var next, files := rest + DirsIn(t, d, names), FilesIn(t, d, names);
        WalkOne(t, rest, d, names, found);
        WalkFinds(os, t, next, found + files);
        assert (forall p :: p in next ==> !IsFile(t, p)) <==> (forall p :: p in rest ==> !IsFile(t, p));
      } else {
        assert d in pending && IsFile(t, d);
      }
    }
  }

  lemma WalkOne(t: Tree, rest: seq<Path>, d: Path, names: seq<string>, found: seq<Path>)
    requires Lists(t, d, names) && Antichain(rest + [d]) && WellFormed(t) && IsDir(t, d)
    requires Distinct(found) && forall p :: p in found ==> !Leads(rest + [d], p)
    ensures var next, files := rest + DirsIn(t, d, names), FilesIn(t, d, names);
            && Antichain(next)
            && Reach(t, next) < Reach(t, rest + [d])
            && Distinct(found + files)
            && (forall p :: p in found + files ==> !Leads(next, p))
            && (forall p :: p in next ==> p in rest || IsDir(t, p))
            && (forall p :: p in rest ==> p in next)
            && (forall p :: p in found + files || (IsFile(t, p) && Leads(next, p)) <==>
                            p in found || (IsFile(t, p) && Leads(rest + [d], p)))
  {
    NextAntichain(t, rest, d, names);
    ReachShrinks(t, rest, d, names);
    PickedAreDistinct(t, d, names);
    var next, files := rest + DirsIn(t, d, names), FilesIn(t, d, names);
    forall p | p in files ensures !Leads(next, p) && Leads(rest + [d], p) {
      KeptOnce(t, rest, d, names, p);
    }
    forall p | IsFile(t, p) && Leads(rest + [d], p) ensures Leads(next, p) || p in files {
      NothingLost(t, rest, d, names, p);
    }
    forall p | Leads(next, p) ensures Leads(rest + [d], p) {
      NothingAdded(t, rest, d, names, p);
    }
    forall p { Picked(t, d, names, p); }
    JoinDistinct(found, FilesIn(t, d, names));
  }

  /** `walk_files(root)`: `None` when the root cannot be read as a directory. */
  function WalkFiles(os: System, t: Tree, root: Path): Option<seq<Path>>
    requires Lawful(os)
  {
    Walk(os, t, [root], [])
  }

  ghost predicate IsListing(t: Tree, root: Path, files: seq<Path>) {
    Distinct(files) && forall p :: p in files <==> IsFile(t, p) && root <= p
  }

  lemma WalkFilesIsComplete(os: System, t: Tree, root: Path)
    requires Lawful(os) && WellFormed(t)
    ensures WalkFiles(os, t, root).None? <==> IsFile(t, root)
    ensures WalkFiles(os, t, root).Some? ==> IsListing(t, root, WalkFiles(os, t, root).value)
  {
    WalkFinds(os, t, [root], []);
    assert forall p :: Leads([root], p) <==> root <= p by {
      assert root in [root];
    }
  }

  /** The loop itself, with its explicit stack. */
  method WalkTree(os: System, t: Tree, root: Path) returns (r: Option<seq<Path>>)
    requires Lawful(os) && WellFormed(t)
    ensures r == WalkFiles(os, t, root)
    ensures r.None? <==> IsFile(t, root)
    ensures r.Some? ==> IsListing(t, root, r.value)
  {
    WalkFilesIsComplete(os, t, root);
    var found: seq<Path> := [];
    var pending := [root];
    while pending != []
      invariant Antichain(pending)
      invariant Walk(os, t, pending, found) == WalkFiles(os, t, root)
      decreases Reach(t, pending), |pending|
    {
      var directory, rest := pending[|pending| - 1], pending[..|pending| - 1];
      assert pending == rest + [directory];
      assert forall p :: p in rest ==> p in pending;
      if directory !in t {
        ReachDrops(t, rest, directory);
        pending := rest;
      } else if t[directory].File? {
        return None;
      } else {
        var entries := os.names(t, directory);
        NextAntichain(t, rest, directory, entries);
        ReachShrinks(t, rest, directory, entries);
        pending, found := SortEntries(t, directory, entries, rest, found);
      }
    }
    r := Some(found);
  }

  /** One directory's entries: directories onto the stack, regular files into the result. */
  method SortEntries(t: Tree, directory: Path, entries: seq<string>, rest: seq<Path>, before: seq<Path>)
    returns (pending: seq<Path>, found: seq<Path>)
    ensures pending == rest + DirsIn(t, directory, entries)
    ensures found == before + FilesIn(t, directory, entries)
  {
    pending, found := rest, before;
    for i := 0 to |entries|
      invariant pending + DirsIn(t, directory, entries[i..]) == rest + DirsIn(t, directory, entries)
      invariant found + FilesIn(t, directory, entries[i..]) == before + FilesIn(t, directory, entries)
    {
      assert entries[i..] == [entries[i]] + entries[i + 1..];
      var child := directory + [entries[i]];
      if IsDir(t, child) {
        pending := pending + [child];
      } else if IsFile(t, child) {
        found := found + [child];
      }
    }
  }
}
