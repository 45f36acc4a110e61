/**
 * Names and path rules shared by backups and data directories: the three
 * components, the two markers, and which manifest paths are acceptable.
 */
module Layout {
  import opened Text
  import opened Filesystem

  const METADATA := "metadata"
  const SYSTEM := "system"
  const OBJECTS := "objects"

  /** Components in the order they are copied and installed. */
  const COMPONENTS: seq<string> := [METADATA, SYSTEM, OBJECTS]

  const MANIFEST := "backup-manifest.json"
  const LEGACY_MANIFEST := "manifest.json"
  const INCOMPLETE := "INCOMPLETE"
  const RESTORE_MARKER := ".record-store-restore-in-progress"

  const CATALOG: Path := [METADATA, "catalog.redb"]
  const STORAGE_FORMAT: Path := [SYSTEM, "storage-format.json"]
  const ENCRYPTION_RECORD: Path := [SYSTEM, "object-encryption.json"]

  const U64_MAX: nat := 0xFFFF_FFFF_FFFF_FFFF

  function SaturatingAdd(a: nat, b: nat): nat {
    if a + b > U64_MAX then U64_MAX else a + b
  }

  /** A file's length as the counters report it. */
  function Size(data: Bytes): nat {
    if |data| > U64_MAX then U64_MAX else |data|
  }

  predicate IsStagingName(name: string) {
    StartsWith(name, ".restore-") || StartsWith(name, "metadata.restore-")
  }

  /** The names below which a restore may change anything. */
  predicate RestoreOwns(name: string) {
    name in COMPONENTS || name == RESTORE_MARKER || IsStagingName(name)
  }

  /** The top-level names never coincide. */
  lemma NamesDiffer()
    ensures METADATA != SYSTEM && METADATA != OBJECTS && SYSTEM != OBJECTS
    ensures MANIFEST !in COMPONENTS && LEGACY_MANIFEST !in COMPONENTS
    ensures INCOMPLETE !in COMPONENTS && RESTORE_MARKER !in COMPONENTS
    ensures MANIFEST != LEGACY_MANIFEST && MANIFEST != INCOMPLETE && INCOMPLETE != LEGACY_MANIFEST
  {
    assert METADATA[0] == 'm' && SYSTEM[0] == 's' && OBJECTS[0] == 'o';
    assert MANIFEST[0] == 'b' && INCOMPLETE[0] == 'I' && RESTORE_MARKER[0] == '.';
    assert LEGACY_MANIFEST[1] == 'a' && METADATA[1] == 'e' && LEGACY_MANIFEST[0] == 'm';
  }

  lemma StagingNamesDiffer()
    ensures !IsStagingName(RESTORE_MARKER)
    ensures forall c :: c in COMPONENTS ==> !IsStagingName(c)
  {
    assert RESTORE_MARKER[0] == '.' && RESTORE_MARKER[3] == 'c' && ".restore-"[3] == 's';
    assert "metadata.restore-"[0] == 'm' && ".restore-"[0] == '.';
    assert METADATA[0] == 'm' && SYSTEM[0] == 's' && OBJECTS[0] == 'o';
    assert |METADATA| < |"metadata.restore-"|;
  }

  predicate PlainName(name: string) {
    ValidName(name) && '\\' !in name
  }

  lemma ComponentNamesArePlain()
    ensures PlainName(METADATA) && PlainName(SYSTEM) && PlainName(OBJECTS)
  {
  }

  lemma MarkerNamesArePlain()
    ensures PlainName(MANIFEST) && PlainName(INCOMPLETE)
  {
  }

  lemma RestoreMarkerIsValid()
    ensures ValidName(RESTORE_MARKER)
  {
  }

  // ------------------------------------------------------- manifest paths

  predicate SafeSegment(segment: string) {
    segment != "" && segment != "." && segment != ".." && '\\' !in segment && '\0' !in segment
  }

  /** A plain relative path inside one component. */
  predicate SafeRelativePath(path: string) {
    && path != "" && ByteLength(path) <= 1024 && path[0] != '/'
    && var segments := Split(path, '/');
      && segments[0] in COMPONENTS
      && |segments| > 1
      && forall i :: 1 <= i < |segments| ==> SafeSegment(segments[i])
  }

  /** The check as the program runs it, one segment at a time. */
  method CheckRelativePath(path: string) returns (safe: bool)
    ensures safe <==> SafeRelativePath(path)
  {
    if path == "" || ByteLength(path) > 1024 || path[0] == '/' {
      return false;
    }
    var components := Split(path, '/');
    if components[0] !in COMPONENTS {
      return false;
    }
    safe := CheckSegments(components);
  }

  method CheckSegments(components: seq<string>) returns (safe: bool)
    requires |components| >= 1
    ensures safe <==> |components| > 1 && forall i :: 1 <= i < |components| ==> SafeSegment(components[i])
  {
    var segments := 0;
    for i := 1 to |components|
      invariant segments == i - 1
      invariant forall k :: 1 <= k < i ==> SafeSegment(components[k])
    {
      segments := segments + 1;
      var segment := components[i];
      if segment == "" || segment == "." || segment == ".." {
        return false;
      }
      if '\\' in segment || '\0' in segment {
        return false;
      }
    }
    safe := segments > 0;
  }

  /** A safe path names something strictly inside a component and never climbs out. */
  lemma SafePathStaysInside(path: string)
    requires SafeRelativePath(path)
    ensures var p := Split(path, '/');
            ValidPath(p) && |p| >= 2 && p[0] in COMPONENTS && (forall name :: name in p ==> '\\' !in name)
    ensures Join(Split(path, '/'), '/') == path
  {
    ComponentNamesArePlain();
    JoinOfSplit(path, '/');
    var p := Split(path, '/');
    forall name | name in p ensures ValidName(name) && '\\' !in name {
      var i :| 0 <= i < |p| && p[i] == name;
      assert i == 0 || SafeSegment(p[i]);
    }
  }

  /** How a file's place is written into a manifest: forward slashes only. */
  function Logical(p: Path): string
    requires p != []
  {
    Replace(Join(p, '/'), '\\', '/')
  }

  predicate PlainPath(p: Path) {
    forall name :: name in p ==> '\\' !in name
  }

  lemma {:induction false} JoinKeepsOut(p: Path, c: char)
    requires p != [] && c != '/'
    ensures c in Join(p, '/') <==> exists name :: name in p && c in name
  {
    if |p| > 1 {
      JoinKeepsOut(p[1..], c);
      assert forall name :: name in p <==> name == p[0] || name in p[1..];
    }
  }

  /** Without backslashes the written form determines the path. */
  lemma LogicalOfPlain(p: Path)
    requires p != [] && ValidPath(p) && PlainPath(p)
    ensures Logical(p) == Join(p, '/')
    ensures Split(Logical(p), '/') == p
  {
    JoinKeepsOut(p, '\\');
    assert Logical(p) == Join(p, '/');
    forall part | part in p ensures '/' !in part {
      assert ValidName(part);
    }
    SplitOfJoin(p, '/');
  }

  lemma RecordIsPlain()
    ensures PlainPath(ENCRYPTION_RECORD)
  {
    assert '\\' !in "object-encryption.json";
  }

  // ------------------------------------------------------ component files

  predicate InComponent(p: Path) {
    p != [] && p[0] in COMPONENTS
  }

  /** Incomplete uploads, which no client ever saw. */
  predicate IsScratch(p: Path) {
    |p| > 2 && p[0] == OBJECTS && p[1] == "tmp"
  }

  /** The files of the three components. */
  function ComponentFiles(t: Tree): (files: map<Path, Bytes>) {
    map p | p in t && InComponent(p) && t[p].File? :: t[p].data
  }

  /** What a backup of a deployment should hold: every component file but scratch. */
  function LiveFiles(t: Tree): (files: map<Path, Bytes>) {
    map p | p in t && InComponent(p) && t[p].File? && !IsScratch(p) :: t[p].data
  }
}
