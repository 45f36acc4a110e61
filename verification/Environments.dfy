/** Environments in which a given deployment can be backed up and restored. */
module Environments {
  import opened Wrappers
  import opened Text
  import opened Filesystem
  import opened Layout
  import opened Copying
  import opened Manifests
  import opened Backups
  import opened BackupContents
  import opened Filing
  import opened BackupRuns
  import opened RoundTrip
  import Conservation
  import Consistency

  /** A digest no two contents share: the contents. */
  function Spelled(data: Bytes): string {
    seq(|data|, i requires 0 <= i < |data| => (data[i] as int) as char)
  }

  const LEGACY_BYTES: Bytes := [9]

  /** A version 1 manifest of the two databases, one byte each. */
  const LEGACY: LegacyManifest := LegacyManifest(1, SCHEMA_VERSION, 0, [
    LegacyFile("catalog.redb", 1, Spelled([1])), LegacyFile("credentials.redb", 1, Spelled([2]))])

  /** An environment that reads it. */
  ghost predicate ReadsSample(env: Env) {
    && env.decodeLegacy(LEGACY_BYTES) == Some(LEGACY) && env.decode(LEGACY_BYTES).None?
    && env.digest([1]) == Spelled([1]) && env.digest([2]) == Spelled([2])
  }

  /** An environment in which one manifest has a one-byte encoding. */
  ghost function ShortEnv(m: Manifest): Env {
    Env(Spelled,
        x => if x == m then [7] else Consistency.Encoded(x),
        bytes => if bytes == [7] then Some(m)
                 else if Consistency.Decoded(bytes) == Some(m) then None
                 else Consistency.Decoded(bytes),
        bytes => if bytes == LEGACY_BYTES then Some(LEGACY) else None,
        _ => Some(SUPPORTED_STORAGE_FORMAT), _ => None, _ => None, _ => None, _ => Some([]))
  }

  lemma EncodedStarts(m: Manifest)
    ensures Consistency.Encoded(m) != [] && Consistency.Encoded(m)[0] < 2
  {
    var first := Consistency.Num(m.formatVersion);
    assert first != [] && first[0] < 2;
    assert Consistency.Header(m) != [] && Consistency.Header(m)[0] == first[0];
  }

  lemma NothingDoesNotDecode()
    ensures Consistency.Decoded([]).None?
  {
    forall m ensures Consistency.Encoded(m) != [] {
      EncodedStarts(m);
    }
  }

  lemma LegacyIsNoOther()
    ensures Consistency.Decoded(LEGACY_BYTES).None?
  {
    forall m ensures Consistency.Encoded(m) != LEGACY_BYTES {
      EncodedStarts(m);
      assert LEGACY_BYTES[0] == 9;
    }
  }

  lemma PartStarts(x: Manifest, k: nat)
    requires k < |Consistency.Encoded(x)|
    ensures var part := Consistency.Encoded(x)[..k]; part != [7] && part != LEGACY_BYTES
  {
    EncodedStarts(x);
    var part := Consistency.Encoded(x)[..k];
    assert k > 0 ==> part[0] < 2;
    assert [7][0] == 7 && LEGACY_BYTES[0] == 9;
  }

  lemma DecodesNothing(m: Manifest, part: Bytes)
    requires part != [7] && part != LEGACY_BYTES && Consistency.Decoded(part).None?
    ensures ShortEnv(m).decode(part).None? && ShortEnv(m).decodeLegacy(part).None?
  {
  }

  lemma PartsDoNotDecode(m: Manifest, x: Manifest, k: nat)
    requires k < |ShortEnv(m).encode(x)|
    ensures var env := ShortEnv(m);
            env.decode(env.encode(x)[..k]).None? && env.decodeLegacy(env.encode(x)[..k]).None?
  {
    var part := ShortEnv(m).encode(x)[..k];
    if x == m {
      assert part == [];
      NothingDoesNotDecode();
    } else {
      Consistency.PartDoesNot(x, k);
      PartStarts(x, k);
    }
    DecodesNothing(m, part);
  }

  lemma ShortEnvIsHonest(m: Manifest)
    ensures Honest(ShortEnv(m))
  {
    var env := ShortEnv(m);
    forall x: Manifest ensures env.decode(env.encode(x)) == Some(x) {
      Consistency.WholeDecodes(x);
      EncodedStarts(x);
    }
    forall x: Manifest, k: nat | k < |env.encode(x)|
      ensures env.decode(env.encode(x)[..k]).None? && env.decodeLegacy(env.encode(x)[..k]).None?
    {
      PartsDoNotDecode(m, x, k);
    }
  }

  lemma {:induction false} FilesOfSame(left: Env, right: Env, copies: seq<Copy>)
    requires left.digest == right.digest
    ensures FilesOf(left, copies) == FilesOf(right, copies)
  {
    if copies != [] {
      FilesOfSame(left, right, copies[1..]);
    }
  }

  /** A manifest depends on nothing of the environment but the digest and the records read. */
  lemma ManifestSame(left: Env, right: Env, os: System, settings: Settings, data: Tree)
    requires left.digest == right.digest && left.storageFormat == right.storageFormat
    requires left.schemaVersion == right.schemaVersion && Lawful(os) && WellFormed(data)
    ensures ManifestFor(left, os, settings, data) == ManifestFor(right, os, settings, data)
  {
    FilesOfSame(left, right, AllCopies(os, data, COMPONENTS));
    forall i | 0 <= i < |COMPONENTS|
      ensures ComponentEntries(left, os, data, COMPONENTS)[i] == ComponentEntries(right, os, data, COMPONENTS)[i]
    {
      FilesOfSame(left, right, ComponentCopies(os, data, COMPONENTS[i]));
    }
    assert ComponentEntries(left, os, data, COMPONENTS) == ComponentEntries(right, os, data, COMPONENTS);
  }

  const SETTINGS: Settings := Settings(None, Some(""), 0, U64_MAX)

  lemma SpaceForAnything(os: System, data: Tree)
    requires Lawful(os) && WellFormed(data) && Walkable(data)
    ensures SpaceSuffices(os, SETTINGS, data)
  {
    Conservation.RequiredIsWeight(os, data);
  }

  lemma AssembledHere(any: Manifest, copied: map<Path, Bytes>, files: seq<BackupFile>, components: seq<BackupComponent>)
    requires Assembled(ShortEnv(any), SETTINGS, copied, files, components).Ok? && ENCRYPTION_RECORD !in copied
    ensures var m := Assembled(ShortEnv(any), SETTINGS, copied, files, components).value;
            !m.encrypted && m.storageVersion == SUPPORTED_STORAGE_FORMAT && m.schemaVersion == SCHEMA_VERSION
  {
  }

  lemma OkHere(any: Manifest, os: System, data: Tree)
    requires Lawful(os) && Storable(data)
    requires forall path :: path in REQUIRED ==> Split(path, '/') in LiveFiles(data)
    ensures ManifestFor(ShortEnv(any), os, SETTINGS, data).Ok?
  {
    RequiredSplit();
    assert REQUIRED[2] in REQUIRED;
    PublishesExactly(ShortEnv(any), os, SETTINGS, data);
  }

  lemma PublishedHere(any: Manifest, os: System, data: Tree) returns (m: Manifest)
    requires Lawful(os) && Storable(data) && ENCRYPTION_RECORD !in LiveFiles(data)
    requires forall path :: path in REQUIRED ==> Split(path, '/') in LiveFiles(data)
    ensures ManifestFor(ShortEnv(any), os, SETTINGS, data) == Ok(m) && !m.encrypted
    ensures m.storageVersion == SUPPORTED_STORAGE_FORMAT && m.schemaVersion == SCHEMA_VERSION
  {
    OkHere(any, os, data);
    CopiedIsTheDeployment(os, data);
    RecordIsPlain();
    TopFilesAreLive(data, ENCRYPTION_RECORD);
    AssembledHere(any, Slashed(data), Sorted(FilesOf(ShortEnv(any), AllCopies(os, data, COMPONENTS))),
                  ComponentEntries(ShortEnv(any), os, data, COMPONENTS));
    m := ManifestFor(ShortEnv(any), os, SETTINGS, data).value;
  }

  /** For every deployment a backup can hold there is an environment in which it is backed up. */
  lemma EnvironmentFor(os: System, data: Tree) returns (env: Env, m: Manifest)
    requires Lawful(os) && Storable(data) && ENCRYPTION_RECORD !in LiveFiles(data)
    requires forall path :: path in REQUIRED ==> Split(path, '/') in LiveFiles(data)
    ensures Honest(env) && ManifestFor(env, os, SETTINGS, data) == Ok(m) && !m.encrypted
    ensures Readable(env, SETTINGS, data, m) && SpaceSuffices(os, SETTINGS, data)
    ensures ReadsSample(env)
  {
    var any := Manifest(0, 0, 0, 0, false, None, [], [], 0);
    m := PublishedHere(any, os, data);
    env := ShortEnv(m);
    ShortEnvIsHonest(m);
    ManifestSame(ShortEnv(any), env, os, SETTINGS, data);
    SpaceForAnything(os, data);
    assert env.encode(m) == [7];
    LegacyIsNoOther();
  }
}
