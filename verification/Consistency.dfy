/**
 * What the other modules assume of the system and of the encodings can be met:
 * there is a lawful system and an honest encoding.
 */
module Consistency {
  import opened Wrappers
  import opened Sequences
  import opened Filesystem
  import opened Manifests

  // ------------------------------------------------------------------- system

  ghost function Listed<T(!new)>(s: set<T>): (list: seq<T>)
    ensures Distinct(list) && forall x :: x in list <==> x in s
  {
    if s == {} then []
    else
      var x :| x in s;
      var rest := Listed(s - {x});
      assert forall i :: 0 <= i < |rest| ==> rest[i] in rest;
      [x] + rest
  }

  ghost function NamesIn(t: Tree, d: Path): seq<string> {
    Listed(set p | p in t && |p| == |d| + 1 && d <= p :: p[|d|])
  }

  lemma NamesAreListed(t: Tree, d: Path)
    ensures Lists(t, d, NamesIn(t, d))
  {
    forall n ensures n in NamesIn(t, d) <==> d + [n] in t {
      if n in NamesIn(t, d) {
        var p :| p in t && |p| == |d| + 1 && d <= p && p[|d|] == n;
        assert p == d + [n];
      }
      if d + [n] in t {
        assert (d + [n])[|d|] == n && d <= d + [n];
      }
    }
  }

  predicate IsLongest(s: set<Path>, p: Path) {
    p in s && forall q :: q in s ==> |q| <= |p|
  }

  lemma {:induction false} LongestExists(s: set<Path>)
    requires s != {}
    ensures exists p :: IsLongest(s, p)
    decreases |s|
  {
    var p :| p in s;
    var rest := s - {p};
    if rest == {} {
      assert s == {p};
      assert IsLongest(s, p);
    } else {
      LongestExists(rest);
      var q :| IsLongest(rest, q);
      assert IsLongest(s, if |p| > |q| then p else q);
    }
  }

  lemma NoLongerPrefix(p: Path, q: Path)
    requires |q| <= |p|
    ensures p <= q ==> q == p
  {
  }

  lemma LongestLeads(s: set<Path>, p: Path, rest: seq<Path>)
    requires IsLongest(s, p) && forall q :: q in rest ==> q in s && q != p
    ensures forall i :: 0 <= i < |rest| ==> !(p <= rest[i])
  {
    forall i | 0 <= i < |rest| ensures !(p <= rest[i]) {
      assert rest[i] in rest;
      NoLongerPrefix(p, rest[i]);
    }
  }

  /** The paths of a set, longest first. */
  ghost function Descending(s: set<Path>): (order: seq<Path>)
    ensures forall q :: q in order <==> q in s
    ensures forall i, j :: 0 <= i < j < |order| ==> !(order[i] <= order[j])
  {
    if s == {} then []
    else
      LongestExists(s);
      var p :| IsLongest(s, p);
      var rest := Descending(s - {p});
      LongestLeads(s, p, rest);
      [p] + rest
  }

  ghost function RemovalOf(t: Tree, root: Path): seq<Path> {
    Descending(set q | q in t && root <= q)
  }

  /** A lawful system exists: directories can be read in some order, and removed longest path first. */
  lemma SomeSystemIsLawful()
    ensures exists os :: Lawful(os)
  {
    var os := System((t, d) => NamesIn(t, d), (t, root) => RemovalOf(t, root), (data, at) => 1);
    forall t: Tree, d: Path ensures Lists(t, d, os.names(t, d)) {
      NamesAreListed(t, d);
    }
    assert Lawful(os);
  }

  // ----------------------------------------------------------------- encoding

  /** A code of which no two words, followed by anything, look alike. */
  ghost predicate Decodable<T(!new)>(code: T -> Bytes) {
    forall x: T, y: T, s: Bytes, t: Bytes {:trigger code(x) + s, code(y) + t} ::
      code(x) + s == code(y) + t ==> x == y && s == t
  }

  function Num(n: nat): Bytes {
    if n == 0 then [0] else [1] + Num(n - 1)
  }

  lemma OneMore(n: nat, s: Bytes)
    ensures Num(n + 1) + s == [1] + (Num(n) + s)
  {
    assert Num(n + 1) == [1] + Num(n);
  }

  lemma HeadsTell(a: Bytes, b: Bytes)
    ensures [0] + a != [1] + b
    ensures [1] + a == [1] + b ==> a == b
    ensures [0] + a == [0] + b ==> a == b
  {
    assert ([0] + a)[0] == 0 && ([1] + b)[0] == 1;
    assert ([1] + a)[1..] == a && ([1] + b)[1..] == b && ([0] + a)[1..] == a && ([0] + b)[1..] == b;
  }

  lemma {:induction false} NumApart(x: nat, y: nat, s: Bytes, t: Bytes)
    requires Num(x) + s == Num(y) + t
    ensures x == y && s == t
  {
    if x > 0 {
      OneMore(x - 1, s);
    }
    if y > 0 {
      OneMore(y - 1, t);
    }
    if x > 0 && y > 0 {
      HeadsTell(Num(x - 1) + s, Num(y - 1) + t);
      NumApart(x - 1, y - 1, s, t);
    } else if x > 0 {
      HeadsTell(t, Num(x - 1) + s);
    } else if y > 0 {
      HeadsTell(s, Num(y - 1) + t);
    } else {
      HeadsTell(s, t);
    }
  }

  function Elements<T>(code: T -> Bytes, xs: seq<T>): Bytes {
    if xs == [] then [] else code(xs[0]) + Elements(code, xs[1..])
  }

  /** A list: its length, then its elements. */
  function List<T>(code: T -> Bytes, xs: seq<T>): Bytes {
    Num(|xs|) + Elements(code, xs)
  }

  lemma {:induction false} ElementsApart<T(!new)>(code: T -> Bytes, xs: seq<T>, ys: seq<T>, s: Bytes, t: Bytes)
    requires Decodable(code) && |xs| == |ys| && Elements(code, xs) + s == Elements(code, ys) + t
    ensures xs == ys && s == t
    decreases |xs|
  {
    if xs == [] {
      assert [] + s == s && [] + t == t;
    } else {
      Regroup(code(xs[0]), Elements(code, xs[1..]), s);
      Regroup(code(ys[0]), Elements(code, ys[1..]), t);
      assert code(xs[0]) + (Elements(code, xs[1..]) + s) == code(ys[0]) + (Elements(code, ys[1..]) + t);
      ElementsApart(code, xs[1..], ys[1..], s, t);
      assert xs == [xs[0]] + xs[1..] && ys == [ys[0]] + ys[1..];
    }
  }

  lemma ListApart<T(!new)>(code: T -> Bytes, xs: seq<T>, ys: seq<T>, s: Bytes, t: Bytes)
    requires Decodable(code) && List(code, xs) + s == List(code, ys) + t
    ensures xs == ys && s == t
  {
    Regroup(Num(|xs|), Elements(code, xs), s);
    Regroup(Num(|ys|), Elements(code, ys), t);
    NumApart(|xs|, |ys|, Elements(code, xs) + s, Elements(code, ys) + t);
    ElementsApart(code, xs, ys, s, t);
  }

  function Character(c: char): Bytes {
    Num(c as int)
  }

  function Chars(s: string): Bytes {
    List(Character, s)
  }

  lemma CharsApart(x: string, y: string, s: Bytes, t: Bytes)
    requires Chars(x) + s == Chars(y) + t
    ensures x == y && s == t
  {
    forall a: char, b: char, s: Bytes, t: Bytes | Character(a) + s == Character(b) + t ensures a == b && s == t {
      NumApart(a as int, b as int, s, t);
    }
    assert Decodable(Character);
    ListApart(Character, x, y, s, t);
  }

  function Flag(b: bool): Bytes {
    Num(if b then 1 else 0)
  }

  function FileCode(f: BackupFile): Bytes {
    Chars(f.path) + (Num(f.size) + Chars(f.sha256))
  }

  lemma FilesAreDecodable()
    ensures Decodable(FileCode)
  {
    forall x: BackupFile, y: BackupFile, s: Bytes, t: Bytes | FileCode(x) + s == FileCode(y) + t
      ensures x == y && s == t
    {
      Regroup(Chars(x.path), Num(x.size) + Chars(x.sha256), s);
      Regroup(Chars(y.path), Num(y.size) + Chars(y.sha256), t);
      CharsApart(x.path, y.path, Num(x.size) + Chars(x.sha256) + s, Num(y.size) + Chars(y.sha256) + t);
      Regroup(Num(x.size), Chars(x.sha256), s);
      Regroup(Num(y.size), Chars(y.sha256), t);
      NumApart(x.size, y.size, Chars(x.sha256) + s, Chars(y.sha256) + t);
      CharsApart(x.sha256, y.sha256, s, t);
    }
  }

  function ComponentCode(c: BackupComponent): Bytes {
    Chars(c.name) + (Flag(c.required) + (Num(c.fileCount) + Num(c.bytes)))
  }

  lemma ComponentsAreDecodable()
    ensures Decodable(ComponentCode)
  {
    forall x: BackupComponent, y: BackupComponent, s: Bytes, t: Bytes | ComponentCode(x) + s == ComponentCode(y) + t
      ensures x == y && s == t
    {
      var (x1, y1) := (Num(x.fileCount) + Num(x.bytes), Num(y.fileCount) + Num(y.bytes));
      Regroup(Chars(x.name), Flag(x.required) + x1, s);
      Regroup(Chars(y.name), Flag(y.required) + y1, t);
      CharsApart(x.name, y.name, Flag(x.required) + x1 + s, Flag(y.required) + y1 + t);
      Regroup(Flag(x.required), x1, s);
      Regroup(Flag(y.required), y1, t);
      NumApart(if x.required then 1 else 0, if y.required then 1 else 0, x1 + s, y1 + t);
      Regroup(Num(x.fileCount), Num(x.bytes), s);
      Regroup(Num(y.fileCount), Num(y.bytes), t);
      NumApart(x.fileCount, y.fileCount, Num(x.bytes) + s, Num(y.bytes) + t);
      NumApart(x.bytes, y.bytes, s, t);
    }
  }

  function KeyCode(k: Option<string>): Bytes {
    match k
    case None => Num(0)
    case Some(key) => Num(1) + Chars(key)
  }

  lemma KeysApart(x: Option<string>, y: Option<string>, s: Bytes, t: Bytes)
    requires KeyCode(x) + s == KeyCode(y) + t
    ensures x == y && s == t
  {
    var (a, b) := (if x.Some? then Chars(x.value) else [], if y.Some? then Chars(y.value) else []);
    var (i, j) := (if x.Some? then 1 else 0, if y.Some? then 1 else 0);
    Regroup(Num(i), a, s);
    Regroup(Num(j), b, t);
    assert Num(0) + [] == Num(0);
    NumApart(i, j, a + s, b + t);
    assert [] + s == s && [] + t == t;
    if x.Some? && y.Some? {
      CharsApart(x.value, y.value, s, t);
    }
  }

  function Header(m: Manifest): Bytes {
    Num(m.formatVersion) + (Num(m.schemaVersion) + (Num(m.storageVersion) + (Num(m.created) + Flag(m.encrypted))))
  }

  lemma HeadersApart(x: Manifest, y: Manifest, s: Bytes, t: Bytes)
    requires Header(x) + s == Header(y) + t
    ensures x.formatVersion == y.formatVersion && x.schemaVersion == y.schemaVersion
    ensures x.storageVersion == y.storageVersion && x.created == y.created && x.encrypted == y.encrypted && s == t
  {
    var (x3, y3) := (Num(x.created) + Flag(x.encrypted), Num(y.created) + Flag(y.encrypted));
    var (x2, y2) := (Num(x.storageVersion) + x3, Num(y.storageVersion) + y3);
    var (x1, y1) := (Num(x.schemaVersion) + x2, Num(y.schemaVersion) + y2);
    Regroup(Num(x.formatVersion), x1, s);
    Regroup(Num(y.formatVersion), y1, t);
    NumApart(x.formatVersion, y.formatVersion, x1 + s, y1 + t);
    Regroup(Num(x.schemaVersion), x2, s);
    Regroup(Num(y.schemaVersion), y2, t);
    NumApart(x.schemaVersion, y.schemaVersion, x2 + s, y2 + t);
    Regroup(Num(x.storageVersion), x3, s);
    Regroup(Num(y.storageVersion), y3, t);
    NumApart(x.storageVersion, y.storageVersion, x3 + s, y3 + t);
    Regroup(Num(x.created), Flag(x.encrypted), s);
    Regroup(Num(y.created), Flag(y.encrypted), t);
    NumApart(x.created, y.created, Flag(x.encrypted) + s, Flag(y.encrypted) + t);
    NumApart(if x.encrypted then 1 else 0, if y.encrypted then 1 else 0, s, t);
  }

  function Contents(m: Manifest): Bytes {
    KeyCode(m.sealingKey) + (List(ComponentCode, m.components) + (List(FileCode, m.files) + Num(m.totalBytes)))
  }

  lemma ContentsApart(x: Manifest, y: Manifest, s: Bytes, t: Bytes)
    requires Contents(x) + s == Contents(y) + t
    ensures x.sealingKey == y.sealingKey && x.components == y.components && x.files == y.files
    ensures x.totalBytes == y.totalBytes && s == t
  {
    var (x2, y2) := (List(FileCode, x.files) + Num(x.totalBytes), List(FileCode, y.files) + Num(y.totalBytes));
    var (x1, y1) := (List(ComponentCode, x.components) + x2, List(ComponentCode, y.components) + y2);
    Regroup(KeyCode(x.sealingKey), x1, s);
    Regroup(KeyCode(y.sealingKey), y1, t);
    KeysApart(x.sealingKey, y.sealingKey, x1 + s, y1 + t);
    Regroup(List(ComponentCode, x.components), x2, s);
    Regroup(List(ComponentCode, y.components), y2, t);
    ComponentsAreDecodable();
    ListApart(ComponentCode, x.components, y.components, x2 + s, y2 + t);
    Regroup(List(FileCode, x.files), Num(x.totalBytes), s);
    Regroup(List(FileCode, y.files), Num(y.totalBytes), t);
    FilesAreDecodable();
    ListApart(FileCode, x.files, y.files, Num(x.totalBytes) + s, Num(y.totalBytes) + t);
    NumApart(x.totalBytes, y.totalBytes, s, t);
  }

  function Encoded(m: Manifest): Bytes {
    Header(m) + Contents(m)
  }

  lemma ManifestsApart(x: Manifest, y: Manifest, s: Bytes, t: Bytes)
    requires Encoded(x) + s == Encoded(y) + t
    ensures x == y && s == t
  {
    Regroup(Header(x), Contents(x), s);
    Regroup(Header(y), Contents(y), t);
    HeadersApart(x, y, Contents(x) + s, Contents(y) + t);
    ContentsApart(x, y, s, t);
  }

  ghost function Decoded(bytes: Bytes): (r: Option<Manifest>)
    ensures r.Some? ==> Encoded(r.value) == bytes
    ensures r.None? ==> forall m :: Encoded(m) != bytes
  {
    if exists m :: Encoded(m) == bytes then
      var m :| Encoded(m) == bytes;
      Some(m)
    else None
  }

  lemma WholeDecodes(m: Manifest)
    ensures Decoded(Encoded(m)) == Some(m)
  {
    ManifestsApart(Decoded(Encoded(m)).value, m, [], []);
  }

  lemma NotAPart(m: Manifest, code: Bytes, other: Manifest, k: nat)
    requires code == Encoded(m) && k < |code|
    ensures Encoded(other) != code[..k]
  {
    if Encoded(other) == code[..k] {
      assert code == Encoded(other) + code[k..];
      assert code + [] == code;
      ManifestsApart(other, m, code[k..], []);
    }
  }

  lemma PartDoesNot(m: Manifest, k: nat)
    requires k < |Encoded(m)|
    ensures Decoded(Encoded(m)[..k]).None?
  {
    forall other ensures Encoded(other) != Encoded(m)[..k] {
      NotAPart(m, Encoded(m), other, k);
    }
  }

  /** An honest encoding exists: whole manifests read back, cut ones do not. */
  lemma SomeEncodingIsHonest()
    ensures exists env :: Honest(env)
  {
    var env := Env(_ => "", m => Encoded(m), bytes => Decoded(bytes), _ => None, _ => None, _ => None, _ => None,
                   _ => None, _ => None);
    forall m: Manifest ensures env.decode(env.encode(m)) == Some(m) {
      WholeDecodes(m);
    }
    forall m: Manifest, k: nat | k < |env.encode(m)|
      ensures env.decode(env.encode(m)[..k]).None? && env.decodeLegacy(env.encode(m)[..k]).None?
    {
      PartDoesNot(m, k);
    }
    assert Honest(env);
  }
}
