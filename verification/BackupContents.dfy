/** What a backup copies. */
module BackupContents {
  import opened Text
  import opened Filesystem
  import opened Layout
  import opened Copying
  import opened Manifests
  import opened Backups

  ghost predicate Walkable(t: Tree) {
    forall c :: c in COMPONENTS ==> !IsFile(t, [c])
  }

  // ------------------------------------------------------- names and scratch

  lemma PlainTail(p: Path)
    requires |p| >= 2 && ValidPath(p) && PlainPath(p)
    ensures ValidPath(p[1..]) && PlainPath(p[1..])
    ensures RelativeName(p) == Join(p[1..], '/')
    ensures p[0] + "/" + RelativeName(p) == Join(p, '/')
  {
    assert forall name :: name in p[1..] ==> name in p;
    LogicalOfPlain(p[1..]);
  }

  lemma LeadingSegment(q: Path, name: string)
    requires q != [] && ValidPath(q) && '/' !in name
    ensures StartsWith(Join(q, '/'), name + "/") <==> |q| > 1 && q[0] == name
  {
    if StartsWith(Join(q, '/'), name + "/") {
      SegmentLeads(q, name);
    }
    if |q| > 1 && q[0] == name {
      assert Join(q, '/') == (name + "/") + Join(q[1..], '/');
    }
  }

  lemma SegmentLeads(q: Path, name: string)
    requires q != [] && ValidPath(q) && '/' !in name && StartsWith(Join(q, '/'), name + "/")
    ensures |q| > 1 && q[0] == name
  {
    var s := Join(q, '/');
    var rest := s[|name| + 1..];
    assert s == name + ['/'] + rest;
    SplitPart(name, rest, '/');
    forall part | part in q ensures '/' !in part {
      assert ValidName(part);
    }
    SplitOfJoin(q, '/');
  }

  lemma SkippedIsScratch(p: Path)
    requires |p| >= 2 && ValidPath(p) && PlainPath(p)
    ensures Skipped(p) <==> IsScratch(p)
  {
    PlainTail(p);
    assert "tmp" + "/" == "tmp/";
    LeadingSegment(p[1..], "tmp");
  }

  lemma ScratchIsSkipped(p: Path)
    requires ValidPath(p) && IsScratch(p)
    ensures Skipped(p)
  {
    assert forall name :: name in p[1..] ==> name in p;
    assert "tmp" + "/" == "tmp/";
    LeadingSegment(p[1..], "tmp");
    var s := Join(p[1..], '/');
    assert forall i :: 0 <= i < 4 ==> s[i] == "tmp/"[i] && s[i] != '\\';
  }

  /** No live file has a backslash in its name. */
  ghost predicate PlainLive(t: Tree) {
    forall p :: p in LiveFiles(t) ==> PlainPath(p)
  }

  // ------------------------------------------------------------ copies, live

  lemma {:induction false} CopiesOfHas(data: Tree, files: seq<Path>, p: Path)
    requires forall q :: q in files ==> IsFile(data, q) && q != []
    requires p in files && !Skipped(p)
    ensures CopyOf(data, p) in CopiesOf(data, files)
  {
    assert forall q :: q in files[1..] ==> q in files;
    if files[0] != p {
      CopiesOfHas(data, files[1..], p);
    }
  }

  lemma {:induction false} CopiesOfOnly(data: Tree, files: seq<Path>, c: Copy) returns (p: Path)
    requires forall q :: q in files ==> IsFile(data, q) && q != []
    requires c in CopiesOf(data, files)
    ensures p in files && !Skipped(p) && c == CopyOf(data, p)
  {
    assert files[0] in files && forall q :: q in files[1..] ==> q in files;
    if !Skipped(files[0]) && c == CopyOf(data, files[0]) {
      p := files[0];
    } else {
      p := CopiesOfOnly(data, files[1..], c);
    }
  }

  lemma {:induction false} AllCopiesHas(os: System, data: Tree, components: seq<string>, component: string, c: Copy)
    requires Lawful(os) && WellFormed(data)
    requires component in components && c in ComponentCopies(os, data, component)
    ensures c in AllCopies(os, data, components)
  {
    if components[0] != component {
      AllCopiesHas(os, data, components[1..], component, c);
    }
  }

  lemma {:induction false} AllCopiesOnly(os: System, data: Tree, components: seq<string>, c: Copy)
    returns (component: string)
    requires Lawful(os) && WellFormed(data)
    requires c in AllCopies(os, data, components)
    ensures component in components && c in ComponentCopies(os, data, component)
  {
    if c in ComponentCopies(os, data, components[0]) {
      component := components[0];
    } else {
      component := AllCopiesOnly(os, data, components[1..], c);
    }
  }

  /** Every file of a component lies strictly inside it. */
  lemma InsideComponent(data: Tree, p: Path)
    requires Walkable(data) && IsFile(data, p) && InComponent(p)
    ensures |p| >= 2
  {
    assert p == [p[0]] || |p| >= 2;
  }

  // ---------------------------------------------------------------- manifest

  lemma {:induction false} FilesOfHas(env: Env, copies: seq<Copy>, c: Copy)
    requires c in copies
    ensures FileOf(env, c) in FilesOf(env, copies)
  {
    if copies[0] != c {
      FilesOfHas(env, copies[1..], c);
    }
  }

  lemma {:induction false} FilesOfOnly(env: Env, copies: seq<Copy>, f: BackupFile) returns (c: Copy)
    requires f in FilesOf(env, copies)
    ensures c in copies && f == FileOf(env, c)
  {
    if f == FileOf(env, copies[0]) {
      c := copies[0];
    } else {
      c := FilesOfOnly(env, copies[1..], f);
    }
  }

  lemma {:induction false} FilesOfConcat(env: Env, a: seq<Copy>, b: seq<Copy>)
    ensures FilesOf(env, a + b) == FilesOf(env, a) + FilesOf(env, b)
    decreases |a|
  {
    if a == [] {
      assert a + b == b;
    } else {
      assert (a + b)[1..] == a[1..] + b;
      FilesOfConcat(env, a[1..], b);
    }
  }
}
