/** Under which configurations a restore takes the backup of a deployment. */
module Admission {
  import opened Wrappers
  import opened Filesystem
  import opened Layout
  import opened Payloads
  import opened Manifests
  import opened Verification
  import opened Backups
  import opened BackupEffect
  import opened Filing
  import opened Restores
  import opened RoundTrip
  import opened ManifestContents

  /** What was sealed can be opened: the same sealing key, an empty one standing for none. */
  ghost predicate SameSealing(taken: Settings, given: Settings) {
    taken.sealingKey == given.sealingKey || (taken.sealingKey == Some("") && given.sealingKey.None?)
  }

  /** Encrypted payloads can be opened: the key given has the reference the deployment records. */
  ghost predicate HasObjectKey(env: Env, data: Tree, key: Option<Bytes>) {
    var record := ["system", "object-encryption.json"];
    IsFile(data, record) ==>
      && key.Some? && env.keyRecord(data[record].data).Some?
      && env.keyRecord(data[record].data) == env.keyReference(key.value)
  }

  /** Every payload the catalog references is among the files a backup holds. */
  ghost predicate PayloadsFiled(env: Env, data: Tree)
    requires Storable(data)
  {
    && IsFile(data, CATALOG) && env.references(data[CATALOG].data).Some?
    && forall id :: id in env.references(data[CATALOG].data).value ==> ShardOf(Encoded(id)) in Slashed(data)
  }

  /** A manifest this release reads. */
  ghost predicate Legible(env: Env, m: Manifest) {
    |env.encode(m)| <= 67108864 && m.storageVersion <= 1 && m.schemaVersion <= 6
  }

  lemma KeyExactly(env: Env, data: Tree, b: Tree, m: Manifest, key: Option<Bytes>)
    requires Storable(data) && ComponentFiles(b) == Slashed(data)
    requires m.encrypted <==> IsFile(data, ["system", "object-encryption.json"])
    ensures KeyConfirmed(env, b, m, key) <==> HasObjectKey(env, data, key)
  {
    RecordIsPlain();
    SameTopFile(data, b, ENCRYPTION_RECORD);
  }

  lemma PayloadsExactly(env: Env, data: Tree, b: Tree)
    requires Storable(data) && ComponentFiles(b) == Slashed(data)
    ensures PayloadsPresent(env, b) <==> PayloadsFiled(env, data)
  {
    RequiredSplit();
    SameTopFile(data, b, CATALOG);
    ObjectsIsNoFile(data, b);
    forall id: ObjectId ensures Present(b, id) <==> ShardOf(Encoded(id)) in Slashed(data) {
      assert ShardOf(Encoded(id))[0] == OBJECTS;
      assert ShardOf(Encoded(id)) in ComponentFiles(b) <==> IsFile(b, ShardOf(Encoded(id)));
    }
  }

  lemma ReadsBack(env: Env, b: Tree, m: Manifest)
    requires Honest(env) && FileIs(b, [MANIFEST], env.encode(m))
    ensures if |env.encode(m)| <= 67108864 then ReadManifest(env, b) == Ok(m) else ReadManifest(env, b).Err?
  {
    assert env.decode(env.encode(m)) == Some(m);
  }

  lemma UsableExactly(env: Env, data: Tree, b: Tree, m: Manifest, level: Level, key: Option<Bytes>)
    requires Honest(env) && Storable(data) && HoldsBackup(env, b, m, Slashed(data))
    requires m.encrypted <==> IsFile(data, ["system", "object-encryption.json"])
    ensures Usable(env, b, level, key) <==>
            Legible(env, m) && HasObjectKey(env, data, key) && (level == Full ==> PayloadsFiled(env, data))
  {
    ReadsBack(env, b, m);
    BackupChecksOut(env, data, b, m);
    KeyExactly(env, data, b, m, key);
    PayloadsExactly(env, data, b);
  }

  /**
   * The finished backup of a deployment is taken by a restore under exactly the
   * configurations that can open what was sealed and encrypted, if its versions
   * can be read at all; at the full level every payload has to be in it as well.
   */
  lemma AdmittedExactly(env: Env, os: System, settings: Settings, data: Tree, dest: Tree, replace: bool, m: Manifest,
                        level: Level, given: Settings)
    requires Honest(env) && Lawful(os) && WellFormed(data) && WellFormed(dest)
    requires Executes(dest, BackupScript(env, os, settings, data, dest, replace))
    requires ManifestFor(env, os, settings, data) == Ok(m)
    ensures Storable(data)
    ensures RestoreAdmitted(env, After(dest, BackupScript(env, os, settings, data, dest, replace)), level, given) <==>
            && Legible(env, m) && SameSealing(settings, given) && HasObjectKey(env, data, given.masterKey)
            && (level == Full ==> PayloadsFiled(env, data))
  {
    var b := After(dest, BackupScript(env, os, settings, data, dest, replace));
    FinishedHolds(env, os, settings, data, dest, replace);
    ManifestTells(env, os, settings, data, m);
    UsableExactly(env, data, b, m, level, given.masterKey);
    ReadsBack(env, b, m);
    SealingExactly(env, b, level, settings, given, m);
  }

  lemma SealingExactly(env: Env, b: Tree, level: Level, settings: Settings, given: Settings, m: Manifest)
    requires ReadManifest(env, b) == Ok(m) || ReadManifest(env, b).Err?
    requires m.sealingKey == settings.sealingKey && m.sealingKey.Some?
    ensures RestoreAdmitted(env, b, level, given) <==>
            Usable(env, b, level, given.masterKey) && SameSealing(settings, given)
  {
  }
}
