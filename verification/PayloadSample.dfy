/** The start-up guard's bounded count of stored payloads. */
module PayloadSample {
  import opened Filesystem
  import opened Layout

  /** Files strictly below `d`, at most `levels` names deeper. */
  ghost function FilesWithin(t: Tree, d: Path, levels: nat): set<Path> {
    set p | p in t && t[p].File? && d < p && |p| <= |d| + levels
  }

  /** How deep the walk goes: directories at depths 0 to 3 are read. */
  const DEPTH: nat := 4

  function Min(a: nat, b: nat): nat {
    if a < b then a else b
  }

  /** The smaller of the limit and the number of payload files within reach. */
  ghost function Sampled(t: Tree, limit: nat): nat {
    Min(limit, |FilesWithin(t, [OBJECTS], DEPTH)|)
  }

  /** Those of the files within reach that lie below one of these names. */
  ghost function Through(t: Tree, d: Path, levels: nat, names: seq<string>): set<Path> {
    set p | p in FilesWithin(t, d, levels) && p[|d|] in names
  }

  lemma BelowChild(d: Path, name: string, p: Path)
    ensures d < p && p[|d|] == name <==> d + [name] <= p
  {
    var child := d + [name];
    if d < p && p[|d|] == name {
      assert p[..|child|] == child;
    }
    if child <= p {
      assert p[|d|] == child[|d|] && p[..|d|] == child[..|d|] == d;
    }
  }

  /** A child that is a file counts once; a child directory for what it holds, one level less deep. */
  lemma ThroughOne(t: Tree, d: Path, levels: nat, name: string)
    requires WellFormed(t) && levels > 0 && d + [name] in t
    ensures IsFile(t, d + [name]) ==> Through(t, d, levels, [name]) == {d + [name]}
    ensures IsDir(t, d + [name]) ==> Through(t, d, levels, [name]) == FilesWithin(t, d + [name], levels - 1)
  {
    var child := d + [name];
    if IsFile(t, child) {
      OnlyItself(t, child);
      forall p | p in Through(t, d, levels, [name]) ensures p == child {
        BelowChild(d, name, p);
      }
      BelowChild(d, name, child);
    } else {
      forall p | p in Through(t, d, levels, [name]) ensures p in FilesWithin(t, child, levels - 1) {
        BelowChild(d, name, p);
        assert child <= p && child != p;
      }
      forall p | p in FilesWithin(t, child, levels - 1) ensures p in Through(t, d, levels, [name]) {
        BelowChild(d, name, p);
      }
    }
  }

  lemma OnlyItself(t: Tree, file: Path)
    requires WellFormed(t) && IsFile(t, file)
    ensures forall p :: p in t && file <= p ==> p == file
  {
    forall p | p in t && file <= p ensures p == file {
      if p != file {
        AncestorsAreDirs(t, file, p);
      }
    }
  }

  lemma ThroughNext(t: Tree, d: Path, levels: nat, names: seq<string>, i: nat)
    requires Distinct(names) && i < |names|
    ensures |Through(t, d, levels, names[..i + 1])| ==
            |Through(t, d, levels, names[..i])| + |Through(t, d, levels, [names[i]])|
  {
    var before, here := Through(t, d, levels, names[..i]), Through(t, d, levels, [names[i]]);
    assert names[i] !in names[..i];
    assert before !! here;
    assert Through(t, d, levels, names[..i + 1]) == before + here by {
      assert names[..i + 1] == names[..i] + [names[i]];
    }
  }

  /** The files below the first `i` names, name by name. */
  ghost function Tally(t: Tree, d: Path, levels: nat, names: seq<string>, i: nat): nat
    requires i <= |names|
  {
    if i == 0 then 0 else Tally(t, d, levels, names, i - 1) + |Through(t, d, levels, [names[i - 1]])|
  }

  lemma {:induction false} TallyIs(t: Tree, d: Path, levels: nat, names: seq<string>, i: nat)
    requires Distinct(names) && i <= |names|
    ensures Tally(t, d, levels, names, i) == |Through(t, d, levels, names[..i])|
  {
    if i == 0 {
      assert Through(t, d, levels, names[..0]) == {};
    } else {
      TallyIs(t, d, levels, names, i - 1);
      ThroughNext(t, d, levels, names, i - 1);
    }
  }

  lemma {:induction false} TallyGrows(t: Tree, d: Path, levels: nat, names: seq<string>, i: nat, j: nat)
    requires i <= j <= |names|
    ensures Tally(t, d, levels, names, i) <= Tally(t, d, levels, names, j)
    decreases j
  {
    if i < j {
      TallyGrows(t, d, levels, names, i, j - 1);
    }
  }

  lemma TallyAll(t: Tree, d: Path, levels: nat, names: seq<string>)
    requires WellFormed(t) && Lists(t, d, names)
    ensures Tally(t, d, levels, names, |names|) == |FilesWithin(t, d, levels)|
  {
    TallyIs(t, d, levels, names, |names|);
    assert names[..|names|] == names;
    ThroughAll(t, d, levels, names);
  }

  lemma ThroughAll(t: Tree, d: Path, levels: nat, names: seq<string>)
    requires WellFormed(t) && Lists(t, d, names)
    ensures Through(t, d, levels, names) == FilesWithin(t, d, levels)
  {
    forall p | p in FilesWithin(t, d, levels) ensures p[|d|] in names {
      var child := p[..|d| + 1];
      assert child == d + [p[|d|]];
      if child != p {
        AncestorsAreDirs(t, child, p);
      }
    }
  }

  /** A readable tree, as a condition that is only taken apart where it is named. */
  ghost predicate Healthy(os: System, t: Tree) {
    forall u {:trigger WellFormed(u)} :: u == t ==> Lawful(os) && WellFormed(u)
  }

  lemma Entries(os: System, t: Tree, d: Path, levels: nat)
    requires Healthy(os, t)
    ensures var names := os.names(t, d);
            && (forall i :: 0 <= i < |names| ==> d + [names[i]] in t)
            && Tally(t, d, levels, names, |names|) == |FilesWithin(t, d, levels)|
  {
    assert WellFormed(t);
    TallyAll(t, d, levels, os.names(t, d));
  }

  lemma NothingIn(os: System, t: Tree, d: Path, levels: nat)
    requires Healthy(os, t) && !IsDir(t, d)
    ensures |FilesWithin(t, d, levels)| == 0
  {
    assert WellFormed(t);
    NothingThere(t, d, levels);
  }

  /** The recursive walk with its shared counter and early exits. */
  method Walk(os: System, t: Tree, directory: Path, depth: nat, limit: nat, found: nat) returns (r: nat)
    requires Healthy(os, t) && found <= limit && depth <= DEPTH
    ensures r == Min(limit, found + |FilesWithin(t, directory, DEPTH - depth)|)
    decreases DEPTH - depth, 1, 0
  {
    if found >= limit {
      return found;
    }
    if depth > 3 {
      NothingAtZero(t, directory);
      return found;
    }
    if directory !in t || t[directory].File? {
      NothingIn(os, t, directory, DEPTH - depth);
      return found;
    }
    r := WalkEntries(os, t, directory, depth, limit, found);
  }

  method WalkEntries(os: System, t: Tree, directory: Path, depth: nat, limit: nat, found: nat) returns (r: nat)
    requires Healthy(os, t) && found <= limit && depth < DEPTH
    ensures r == Min(limit, found + |FilesWithin(t, directory, DEPTH - depth)|)
    decreases DEPTH - depth, 0, 1
  {
    var names := os.names(t, directory);
    Entries(os, t, directory, DEPTH - depth);
    r := VisitAll(os, t, directory, depth, limit, found, names);
  }

  method VisitAll(os: System, t: Tree, directory: Path, depth: nat, limit: nat, found: nat, names: seq<string>)
    returns (r: nat)
    requires Healthy(os, t) && found <= limit && depth < DEPTH
    requires forall i :: 0 <= i < |names| ==> directory + [names[i]] in t
    ensures r == Min(limit, found + Tally(t, directory, DEPTH - depth, names, |names|))
    decreases DEPTH - depth, 0, 0
  {
    r := found;
    ghost var tally := 0;
    for i := 0 to |names|
      invariant tally == Tally(t, directory, DEPTH - depth, names, i)
      invariant r == Min(limit, found + tally)
    {
      if r >= limit {
        TallyGrows(t, directory, DEPTH - depth, names, i, |names|);
        return;
      }
      r := Visit(os, t, directory, depth, limit, r, names[i]);
      tally := tally + |Through(t, directory, DEPTH - depth, [names[i]])|;
    }
  }

  /** One directory entry. */
  method Visit(os: System, t: Tree, directory: Path, depth: nat, limit: nat, found: nat, name: string) returns (r: nat)
    requires Healthy(os, t) && found < limit && depth < DEPTH && directory + [name] in t
    ensures r == Min(limit, found + |Through(t, directory, DEPTH - depth, [name])|)
    decreases DEPTH - depth - 1, 2, 0
  {
    var child := directory + [name];
    assert WellFormed(t);
    ThroughOne(t, directory, DEPTH - depth, name);
    if t[child].Dir? {
      r := Walk(os, t, child, depth + 1, limit, found);
    } else {
      r := found + 1;
    }
  }

  lemma NothingAtZero(t: Tree, d: Path)
    ensures FilesWithin(t, d, 0) == {}
  {
  }

  lemma NothingThere(t: Tree, d: Path, levels: nat)
    requires WellFormed(t) && !IsDir(t, d)
    ensures FilesWithin(t, d, levels) == {}
  {
    forall p | p in FilesWithin(t, d, levels) ensures false {
      AncestorsAreDirs(t, d, p);
    }
  }

  /** `stored_payload_sample`. */
  method StoredPayloadSample(os: System, t: Tree, limit: nat) returns (found: nat)
    requires Lawful(os) && WellFormed(t)
    ensures found == Sampled(t, limit)
    ensures limit > 0 ==> (found == 0 <==> forall p :: p in t && t[p].File? && [OBJECTS] < p ==> |p| > 5)
  {
    assert Healthy(os, t);
    found := Walk(os, t, [OBJECTS], 0, limit, 0);
    if limit > 0 {
      EmptyExactly(t);
    }
  }

  /** Nothing is found exactly when no payload file is within reach. */
  lemma EmptyExactly(t: Tree)
    ensures |FilesWithin(t, [OBJECTS], DEPTH)| == 0 <==> forall p :: p in t && t[p].File? && [OBJECTS] < p ==> |p| > 5
  {
    var files := FilesWithin(t, [OBJECTS], DEPTH);
    if |files| == 0 {
      forall p | p in t && t[p].File? && [OBJECTS] < p ensures |p| > 5 {
        assert p !in files;
      }
    } else {
      var p :| p in files;
    }
  }
}
