# Record Store: backup, restore and start-up, modelled in Dafny

Record Store keeps a deployment in one data directory: the `metadata`, `system` and `objects`
components, next to the files that say who owns them. This project models what happens to that
directory and to backup directories as operators stop, back up, verify, restore, crash and restart,
and proves what the programs promise about it. The other parts are the start-up guard of a cluster
node, the reading of the kernel's mount table, the console's topology grouping and its quota form.

`dafny verify dfyconfig.toml` checks everything.

## How it is modelled

* **Files.** A directory tree is a map from paths to directories and file contents
  (`Filesystem`). Every command is a *script*: the list of file-system operations it performs, in
  order, as a function of what it found. An operation happens or it does not; a crash, an I/O error
  or an early return is a script carried out up to some point. Writes are durable in program order.
* **What the system decides** is not fixed: the order in which a directory is read, the sizes in which
  data arrives, and the order in which `remove_dir_all` removes things (any order with children
  first, so removing a directory is many steps, not one) are parameters (`System`, `Lawful`).
* **Encodings, digests, the catalog and the key derivation** are abstract functions (`Env`). Where a
  statement needs that an encoded manifest reads back and a cut-off one does not, or that two contents
  met do not share a digest, it says so (`Honest`, `NoCollision`). `Consistency` shows that these
  assumptions can be met: a lawful system and an honest encoding exist.
* **The commands themselves** are methods that change a `Disk` one operation at a time and may stop
  anywhere. Each is proved to keep to its script, and to have carried all of it out when it reports
  success; what a script means is then proved about the script.
* **A deployment over its lifetime** is a machine whose events are a server's start-up check, its
  taking of the lock and its writes, the steps of a backup, a restore or a metadata restore, crashes,
  and damage to finished backups, with the data lock held by at most one process (`Deployment`,
  `DeploymentRuns`). A server checks for the restore marker without the lock; what that allows is in
  `Serving` and `MixedStart`. `whole` stands for what the last server write or finished restore left;
  a finished metadata restore into an unmarked directory replaces the metadata part of it.
* **That something can happen** is stated for all inputs of a kind and shown of one small deployment,
  spelled out in `Sample`.
* **A cluster node's start** is a plan of durable writes made from the identity file, the credential
  file, the consensus state and the stored payloads; it may be cut off after any of them, and any of
  the files may be lost or spoilt between starts (`ClusterGuard`, `ClusterRestarts`, `ClusterStart`). While a start runs,
  the recorded cluster changes only by its own write.

File names are taken to have no symbolic links behind them. A name with a backslash is in the model:
a backup files `a\b` as `b` inside a directory `a` (`Filing.Slashed`), and what one speaks of as the
files of a backup are the deployment's files under those names. They are its live files exactly when
no live file has a backslash in its name (`Filing.SlashedIsLiveExactly`).

## Where the code does not do what one might expect

* `docs/operations/backup-and-restore.md` calls a backup complete if, and only if, `INCOMPLETE` is
  absent and the manifest present. Clearing an unfinished attempt can remove the marker and a payload
  before it removes the manifest; when, exactly, is `LookingComplete.CanLookCompleteExactly`, and
  `LookingComplete.RunLeavesComplete` is a run in which it happens. The checksums level is exact
  (`DeploymentRuns.UsableBackupIsOneInstant`).
* The server looks for the restore marker before it takes the lock, so it can end up on a directory
  with the metadata of a backup and nothing else (`MixedStart.ServerOnAMixture`); exactly when a restore
  was abandoned in between after it began its marker and none has finished since
  (`Serving.ServerStandsOnMark`).
* A file named `a\b` comes back as `b` inside a directory `a` (`Sample.SampleRoundTrip`,
  `RoundTrip.RoundTripExactly`).
* An interrupted `restore_metadata` leaves a staging directory and no marker, so no later restore
  clears it (`Leftovers.LeftoverSurvives`, `RestoreRetries.NoStagingExactly`).
* A file with the name of a staging directory stops every restore after one that was interrupted with
  its marker down, and nothing else does (`RestoreResumes.RetryGoesThrough`,
  `Sample.SampleCannotResume`).
* In a release build `total_bytes` is summed with wrap-around, the component totals with saturation
  (`Conservation.CountersAddUp`, `Sample.SampleTotalsDiffer`).
* A node cut off between binding its identity and saving its credential cannot start again with no
  credential on file or, without seeds and with no cluster recorded, with one from a join; exactly then
  (`ClusterRestarts.CutAloneRestarts`, `CutJoinRestarts`), and starting over does not help
  (`ClusterRestarts.StuckStaysDown`). With a credential issued here to an earlier identity it starts,
  and without seeds forms by itself the cluster it was joining (`ClusterGuard.StaleIsReachable`,
  `JoinedClusterFormedAlone`); only then (`ClusterGuard.FormsJoinedNeedsStaleCredential`). A member that
  loses its identity and its consensus state forms another cluster, though the credential of its join is
  on file (`ClusterGuard.JoinedFormsAnother`).
* A version 1 directory never passes verification at the full level: the cross-check looks for a catalog
  below `metadata`, where such a directory has none (`LegacyBackups.LegacyUsableExactly`).
* A mount point beyond ASCII is read as different characters, and one with a carriage return, vertical
  tab or form feed is cut there; no mount point with any of these comes back (`Mounts.RoundTripExactly`).
* The branch of `restore` that reports an unconfirmed key is never taken
  (`RestoreCommand.Restore`).

## Model

| member | source | states |
|---|---|---|
| `DeploymentRuns.UsableBackupIsOneInstant` | apps/record-store-server/src/backup.rs:256-358 | In every run of server starts and writes, backups, restores, metadata restores, crashes and damage to finished backups under one lock: a format 2 destination that passes even the manifest level names one single instant at which a backup to that very destination had just taken the lock of an unmarked and whole data directory, and it passes the checksums level exactly when it holds exactly the files of that instant as a backup files them (a name with a backslash being let through only where, read with separators, one of them is); these are the live files exactly when none has a backslash in its name |
| `DeploymentRuns.GateOpensOnlyOnAWhole` | apps/record-store-server/src/backup.rs:266-272 | In every run: whenever a server's checks or a backup find no restore marker, the components hold exactly what the last server write, finished restore or finished metadata restore left, never a mixture |
| `Serving.ServerStandsOnMark` | apps/record-store-server/src/lib.rs:182-195 | In every run: whoever serves passed the start-up checks at some earlier moment, and as long as it holds the lock it stands on a marked directory if and only if, between that check and the lock, a restore was abandoned after the step that begins its marker and none has finished since; if not, it found the directory whole |
| `Serving.MarkedExactly` | apps/record-store-server/src/backup.rs:595-649 | From any unmarked moment of a run, and whenever no restore holds the lock, the marker is there if and only if since then a restore was abandoned after the step that begins its marker and none has finished after it |
| `Serving.QuietStartIsWhole` | apps/record-store-server/src/lib.rs:182-195 | A server between whose check and lock no restore started, none being under way at the check, takes the lock of an unmarked and whole directory |
| `MixedStart.ServerOnAMixture` | apps/record-store-server/src/lib.rs:182-195 | For every backup that checks out with files in the metadata and elsewhere and every data directory without components: a run in which a restore dies between two of its three renames and the server that had checked before takes the lock, on files that are neither what was there nor what the backup holds |
| `Sample.SampleMixture` | apps/record-store-server/src/lib.rs:182-195 | One such run, with the two files the server stands on |
| `DeploymentRuns.CompleteIsKept` | apps/record-store-server/src/backup.rs:791-819 | Once a destination is complete, no later sequence of backups aimed at it, with either value of `replace_incomplete` and any crash points, changes a byte of it |
| `LookingComplete.LooksCompleteExactly` | apps/record-store-server/src/backup.rs:791-819 | A backup stopped anywhere before its end leaves a manifest and no marker if and only if the destination already looked so, or it was replacing an unfinished attempt with a manifest and has removed the marker and not yet the manifest |
| `LookingComplete.CanLookCompleteExactly` | apps/record-store-server/src/backup.rs:813-816 | Whether some interruption can leave that is decided beforehand: if and only if an unfinished attempt that got as far as its manifest may be replaced and the removal order takes the marker before the manifest |
| `LookingComplete.AbandonedAttemptCanLookComplete` | apps/record-store-server/src/backup.rs:813-816 | If a listed file goes before the manifest too, what is left passes the manifest level and not the checksums level |
| `LookingComplete.RunLeavesComplete` | apps/record-store-server/src/backup.rs:284-352 | For every deployment that can be backed up unencrypted, a run whose only destination ends up like that: a backup stopped before its last step, and its replacement stopped after two removals |
| `Sample.SampleLooksComplete` | apps/record-store-server/src/backup.rs:813-816 | One such run |
| `DeploymentRuns.RunIsSound` | apps/record-store-server/src/lib.rs:836-845 | Every event of every process that may hold the lock (server, backup, restore, `restore_metadata`, `backup_metadata`) keeps all destinations truthful, the running command on its script and the data directory whole or marked |
| `Deployment.StepKeepsSound` | apps/record-store-server/src/lib.rs:787-845 | One event of any kind preserves that picture |
| `BackupSafety.BackupKeepsTrust` | apps/record-store-server/src/backup.rs:284-352 | Wherever a backup is cut off, in the middle of writing the manifest included, a readable manifest in the destination lists exactly the files of one recorded instant |
| `BackupSafety.BackupKeepsPlain` | apps/record-store-server/src/backup.rs:1045-1061 | Wherever it is cut off, a backup puts no name with a backslash into its destination |
| `BackupSafety.PrepareLeavesEmpty` | apps/record-store-server/src/backup.rs:791-819 | If preparing a destination goes through, the destination is an empty directory, whatever was there |
| `BackupEffect.BackupPublished` | apps/record-store-server/src/backup.rs:284-352 | A backup that ran to its end: marker gone, manifest whole, and the component files exactly the copies, none left from before |
| `Filing.ManifestDescribes` | apps/record-store-server/src/backup.rs:299-344 | The manifest's entries are exactly path, size and digest of the files as the backup holds them, in both directions |
| `Filing.CopiedMeansStorable` | apps/record-store-server/src/backup.rs:1038-1074 | Copying that reached its end had walkable components, acceptable names only, and no two files filed at one place or below one another |
| `Filing.PlainIsStorable` | apps/record-store-server/src/backup.rs:1080-1102 | Without backslashes, such a deployment is one whose paths have at most 1024 bytes, and no other |
| `Filing.SlashedIsLiveExactly` | apps/record-store-server/src/backup.rs:1045-1061 | A backup holds exactly the live files, that is, all component files but those below `objects/tmp/`, under their own names if and only if none of them has a backslash in its name |
| `BackupRuns.BackupGoesThrough` | apps/record-store-server/src/backup.rs:284-352 | With nothing failing underneath, a backup reaches its end if and only if the destination is acceptable, there is room, every name can be filed and none is in the way of another, and there is a manifest to publish |
| `BackupRuns.PreparesExactly` | apps/record-store-server/src/backup.rs:791-819 | Preparing goes through if and only if the destination is absent, an empty directory, or a directory with the marker that may be replaced |
| `BackupRuns.ManifestLists` | apps/record-store-server/src/backup.rs:315-344 | The manifest has one safe entry per file the backup holds and no path twice |
| `BackupRuns.PublishesExactly` | apps/record-store-server/src/backup.rs:315-344 | There is a manifest to publish if and only if the required files are live, the storage format record is readable and a sealing key is configured |
| `ManifestContents.ManifestExactly` | apps/record-store-server/src/backup.rs:299-344 | In whatever order directories are read, the manifest published is the one and only that gives format 2, the clock, the configured sealing key, the storage format and the schema recorded in the deployment, whether it has an encryption record, name, need, count and bytes of each component, the total in 64 bits, and one entry per file in the order of the paths |
| `Admission.AdmittedExactly` | apps/record-store-server/src/backup.rs:560-593 | A finished backup is taken by a restore under exactly the configurations with the sealing key it was taken under and, if the deployment has an encryption record, a key of the reference recorded there, provided its versions can be read and, at the full level, every referenced payload is in it |
| `Admission.UsableExactly` | apps/record-store-server/src/backup.rs:361-516 | The same of verification, without the sealing key |
| `Manifests.SortedInOrder` | apps/record-store-server/src/backup.rs:314 | The entries are in order of their paths, and by `SortedKeeps` the same entries |
| `Manifests.PrecedesExactly` | apps/record-store-server/src/backup.rs:314 | That order: a prefix first, and at the first difference the smaller character |
| `RestoreSafety.RestoreInterrupted` | apps/record-store-server/src/backup.rs:595-649 | Stopped after any operation, a restore leaves the marker in place unless nothing had been changed or everything was done |
| `RestoreSafety.MarkedByItself` | apps/record-store-server/src/backup.rs:595-618 | Stopped after any operation but the last, a restore leaves a marker if and only if there was one before it or it got as far as beginning its own |
| `RestoreSafety.RestoreTouchesOnlyItsOwn` | apps/record-store-server/src/backup.rs:595-649 | No operation of a restore touches a top-level name other than the components, the marker and staging directories |
| `RestoreEffect.RestoreCompleted` | apps/record-store-server/src/backup.rs:619-649 | A finished restore, whatever level was asked for: every listed path was safe, distinct and matched size and digest, the components hold exactly those files, marker and staging directory are gone |
| `RestoreEffect.RestoredIsTheManifest` | apps/record-store-server/src/backup.rs:619-647 | The restored files, as path, size and digest, are the manifest's entries in both directions |
| `RestoreEffect.RestoredInside` | apps/record-store-server/src/backup.rs:1080-1102 | Everything a restore installs lies strictly inside a component under valid, backslash-free names |
| `RestoreEffect.InstallEffect` | apps/record-store-server/src/backup.rs:637-647 | The three renames move every staged file into its component and leave none behind, components with nothing staged included |
| `RestoreRetries.RetriesConverge` | apps/record-store-server/src/backup.rs:598-649 | After any number of interrupted restores of any backups, one that succeeds leaves exactly its own backup's files, no marker and every unrelated path as it was; and no staging directory if and only if it found none or found the marker |
| `RestoreRetries.NoStagingExactly` | apps/record-store-server/src/backup.rs:1192-1202 | A finished restore leaves no staging directory if and only if there was none before it or the marker was there |
| `Leftovers.LeftoverSurvives` | apps/record-store-server/src/lib.rs:814-818 | The failing case: into every directory a restore may start in, a `restore_metadata` that dies once it has made its staging directory leaves it to outlive a restore that then finishes |
| `Sample.SampleLeftover` | apps/record-store-server/src/lib.rs:814-818 | One such pair of commands |
| `RestoreRetries.RetriesEqualOneRestore` | apps/record-store-server/src/backup.rs:1192-1202 | The same as a comparison: the components, and every path no restore owns, equal those after a single uninterrupted restore of the last backup from the start |
| `RestoreRuns.RestoreGoesThrough` | apps/record-store-server/src/backup.rs:595-649 | Into any data directory that is absent, has empty components, or was left by an interrupted restore, a backup whose entries check out and do not lie below one another restores to the end and leaves its files |
| `RestoreResumes.RestoreRunsExactly` | apps/record-store-server/src/backup.rs:595-649 | With nothing failing underneath, a restore reaches its end if and only if the directory is one of those and the entries are like that |
| `RestoreResumes.InterruptedStartableExactly` | apps/record-store-server/src/backup.rs:595-649 | A restore stopped anywhere before its end leaves a directory a restore may start in if and only if the marker is not down yet or no file had the name of a staging directory, its own included |
| `RestoreResumes.AlwaysRestartsExactly` | apps/record-store-server/src/backup.rs:1183-1202 | Decided beforehand: every interruption leaves such a directory if and only if there is no such file |
| `RestoreResumes.RetryGoesThrough` | apps/record-store-server/src/backup.rs:598-649 | After any number of interrupted restores of any backups, the next one of a backup that checks out reaches its end, and leaves that backup's files, if and only if no marker is there or no file had the name of a staging directory |
| `Sample.SampleCannotResume` | apps/record-store-server/src/backup.rs:1183-1202 | One directory with such a file, one restore that would reach its end in it, and one interruption of that restore after which no restore of any backup does |
| `RoundTrip.RoundTrip` | apps/record-store-server/src/backup.rs:560-649 | Every deployment a backup can hold, backed up into any acceptable destination and restored under the same configuration into a directory that is absent, has empty components or was left by an interrupted restore: goes through at both ends, passes verification (at the full level when the deployment's own catalog resolves) and brings back every file copied, byte for byte, backslashes read as separators |
| `RoundTrip.RoundTripExactly` | apps/record-store-server/src/backup.rs:1038-1074 | Whenever both commands finish, from and into whatever directories, the restored component files are the deployment's with backslashes read as separators, and so the live files if and only if no live file has a backslash in its name |
| `Sample.SampleRoundTrip` | apps/record-store-server/src/backup.rs:1045-1061 | One deployment with a backslash, both commands reaching their end, and the four files that come back |
| `RoundTrip.BackupVerifies` | apps/record-store-server/src/backup.rs:380-516 | A finished backup's manifest reads back as written and the directory is usable at the checksums level under the key of the deployment |
| `RoundTrip.PayloadsStillPresent` | apps/record-store-server/src/backup.rs:725-780 | If every reference of the deployment's catalog resolves, every reference of the copied catalog resolves in the copy |
| `RoundTrip.FinishedHolds` | apps/record-store-server/src/backup.rs:284-352 | Any backup that finished, of any deployment and into any destination, holds the deployment's files as it files them and a manifest that itemises them |
| `Verification.Verify` | apps/record-store-server/src/backup.rs:361-518 | Through all early exits and skipped checks, the verdict is `Usable` exactly, and the problems named are exactly those there are, strays up to a hundred; a hard error occurs only above the manifest level and only where a component is a file; the counters are those of the files that could be read, the cross-check that of the catalog and the payloads, and the key is called right or wrong exactly when it is |
| `Verification.UsableIsBlameless` | apps/record-store-server/src/backup.rs:380-516 | A backup is usable at a level and with a key if and only if none of the named problems applies to it |
| `Verification.KeyDecides` | apps/record-store-server/src/backup.rs:490-557 | An encrypted backup that is usable with one key is usable with exactly the keys that have the reference it records, and with no key at all it is not |
| `Verification.ChecksumsAreExact` | apps/record-store-server/src/backup.rs:435-467 | For format 2 and every directory: reading and comparing every entry and looking for strays comes to the files without a backslash in their names being the manifest's entries, in both directions, and every other file reading, with separators, as one of them |
| `Verification.UnlistedFiles` | apps/record-store-server/src/backup.rs:986-1006 | The search for strays comes back empty exactly when there is none, despite stopping at a hundred, names only files that are there and not listed, and names all of them if they are fewer |
| `Verification.LevelsAreOrdered` | apps/record-store-server/src/backup.rs:380-516 | Of two reports on one backup with one key: if the stronger level finds it usable, the weaker one does not fail, finds it usable, names the same manifest and, where it reads the files, counts the same |
| `Verification.CheckStructure` | apps/record-store-server/src/backup.rs:394-432 | Names exactly what is wrong: a format above 2, a storage format above 1, a schema above 6, each of the two databases and, except for version 1, the storage format record if it is not listed, and each unsafe path |
| `Verification.CheckFiles` | apps/record-store-server/src/backup.rs:435-458 | Reports, in order, what is wrong with each entry's file and nothing else; the counters are the number and, saturating, the bytes of the files that could be read, which are the entries' when nothing is wrong |
| `Verification.CheckPayloads` | apps/record-store-server/src/backup.rs:469-488 | No problem is reported exactly when the catalog is readable and every reference resolves; otherwise that it cannot be checked or how many are missing; the three counts are those of the references, the missing and the unreferenced |
| `Verification.CheckKey` | apps/record-store-server/src/backup.rs:490-514 | For encrypted payloads: no key, a record or key that cannot be compared, or a reference that differs are reported exactly when that is so, and nothing exactly when the key's reference is the recorded one |
| `Verification.ChecksumFile` | apps/record-store-server/src/backup.rs:1127-1141 | Whatever sizes the reads come in, the result is the whole file's size and digest |
| `Verification.RequiredExactly` | apps/record-store-server/src/backup.rs:963-969 | Version 1 asks for the two databases, every other format for the storage format record too |
| `Walking.WalkTree` | apps/record-store-server/src/backup.rs:1008-1028 | The stack loop ends on every tree and returns each regular file below the root exactly once, in whatever order directories are read |
| `Walking.WalkFilesIsComplete` | apps/record-store-server/src/backup.rs:1008-1028 | The walk fails exactly when the root is a file; otherwise it lists the files below the root, without repetition, in both directions |
| `Layout.CheckRelativePath` | apps/record-store-server/src/backup.rs:1080-1102 | The segment loop accepts exactly the non-empty relative paths of at most 1024 bytes that start with a component and continue with plain segments |
| `Layout.SafePathStaysInside` | apps/record-store-server/src/backup.rs:1080-1102 | A safe path names something strictly inside one component and has no segment that climbs |
| `Copying.CopiesEffect` | apps/record-store-server/src/backup.rs:1038-1074 | A batch of copies that ran to its end had only safe paths and accepted contents, overwrote nothing and added exactly its files |
| `Copying.CopiesDistinct` | apps/record-store-server/src/backup.rs:1104-1110 | A batch that lists one path twice cannot run to its end |
| `Copying.CopyWithChecksum` | apps/record-store-server/src/backup.rs:1104-1125 | Writes in the chunks it reads; on success the whole file is there and the returned size and digest are those of what was read |
| `Copying.WriteDurable` | apps/record-store-server/src/backup.rs:1143-1153 | Performs a truncation and the chunks of the contents in order, all of them on success |
| `Copying.AppendsInterrupted` | apps/record-store-server/src/backup.rs:1143-1153 | A write cut off anywhere leaves a prefix of the contents, a proper one unless it had finished |
| `Payloads.CrossCheck` | apps/record-store-server/src/backup.rs:725-780 | References, missing and unreferenced are the sizes of the sets they name, whatever pages the catalog is read in |
| `Payloads.CountReferences` | apps/record-store-server/src/backup.rs:737-762 | The paging loop ends and meets every reference exactly once |
| `Payloads.ListPayloadReferences` | crates/record-store-metadata/src/redb_store.rs:1141-1199 | A page is the lowest `limit` identifiers after the cursor, in order, and says whether more follow, from one pass that holds at most one identifier more than the page |
| `Payloads.NoneMissing` | apps/record-store-server/src/backup.rs:746-757 | `missing` is zero exactly when every reference is a file below `objects` whose name it is, in a directory of the next two characters of the name inside one of the first two |
| `Payloads.PresentIsKept` | apps/record-store-server/src/backup.rs:748-752 | A reference resolves exactly when there is such a file |
| `Payloads.EncodedReadsBack` | apps/record-store-server/src/backup.rs:748 | A 128-bit identifier is written as thirty-two lower-case hexadecimal digits that read, the most significant first, as that number |
| `Payloads.PayloadsConserved` | apps/record-store-server/src/backup.rs:763-779 | When every payload file sits at the sharded path of its own name, references minus missing plus unreferenced is the number of payload files |
| `Payloads.HexInjective` | apps/record-store-server/src/backup.rs:748-752 | Two identifiers never share a payload path |
| `Manifests.LegacySourceIsTheOriginal` | apps/record-store-server/src/backup.rs:977-984 | Opening a version 1 entry undoes the renaming under `metadata/` for every file name, one that itself starts with `metadata/` included |
| `LegacyBackups.ReadsExactly` | apps/record-store-server/src/backup.rs:877-957 | A manifest reads as one of format 2 if it can be, else as one of version 1: its files below `metadata`, one component, nothing encrypted, no sealing key, totals in 64 bits; the new file name is preferred to the old, and more than 64 MiB are refused |
| `LegacyBackups.LegacyStructured` | apps/record-store-server/src/backup.rs:394-432 | Once read, a version 1 manifest has the structure asked for if and only if its schema can be read, it lists the two databases and every name stays below `metadata` |
| `LegacyBackups.LegacyUsableExactly` | apps/record-store-server/src/backup.rs:361-516 | A version 1 directory is usable at the manifest level exactly when its manifest is like that, at the checksums level exactly when its files also match, with whatever key or none, and never at the full level |
| `LegacyBackups.LegacyGoesThrough` | apps/record-store-server/src/backup.rs:560-649 | A usable version 1 directory with distinct names is taken by `restore` under every configuration and restored into every directory a restore may start in, each file to its place below `metadata` and nothing else |
| `Sample.SampleLegacyRestore` | apps/record-store-server/src/backup.rs:560-649 | The same directory restored by `restore`, with the same two files |
| `Manifests.InventoryDetermines` | apps/record-store-server/src/backup.rs:435-467 | Short of a digest collision among the contents at hand, path, size and digest pin the files down |
| `Conservation.CountersAddUp` | apps/record-store-server/src/backup.rs:299-344 | Component file counts sum to the number of entries; component bytes sum to `total_bytes` if and only if the true total fits in 64 bits, or every byte is in one component and the total wraps to the largest value |
| `Conservation.TotalsDiffer` | apps/record-store-server/src/backup.rs:299-344 | Two files in different components, neither empty, whose sizes sum to more than 64 bits hold: the component bytes do not sum to `total_bytes` |
| `Sample.SampleTotalsDiffer` | apps/record-store-server/src/backup.rs:299-344 | One such deployment, which can be backed up |
| `Conservation.ManifestHoldsTheWeight` | apps/record-store-server/src/backup.rs:1038-1074 | The sizes of the entries sum to the bytes of all component files but the scratch ones, whatever their names and in whatever order they were walked; where the files can be filed, also to the bytes of the backup |
| `Conservation.SpaceCheckIsExact` | apps/record-store-server/src/backup.rs:827-843 | The check passes exactly when the component bytes and five per cent fit the free space, as far as that sum fits in 64 bits; a passed check means room for every component byte if and only if their number fits in 64 bits |
| `Conservation.MarginFits` | apps/record-store-server/src/backup.rs:834-835 | The margin never overflows and never lowers the requirement, for every 64-bit source size |
| `Conservation.RequiredIsWeight` | apps/record-store-server/src/backup.rs:286-294 | What is measured beforehand is the bytes of all component files, scratch included, up to the width of the counter |
| `Conservation.PassedCheckFits` | apps/record-store-server/src/backup.rs:286-344 | After a passed check, everything the manifest lists fits the free space, whatever the names |
| `Disks.PrepareDestination` | apps/record-store-server/src/backup.rs:791-819 | Refuses a complete backup and a non-empty directory exactly when they are that, without touching them; otherwise performs the preparing operations in order |
| `Disks.RemoveIfPresent` | apps/record-store-server/src/backup.rs:1183-1189 | Performs the removals one by one in the system's order; an absent directory is a success |
| `Disks.RemoveStaleStaging` | apps/record-store-server/src/backup.rs:1192-1202 | Removes every top-level entry named as a staging directory and no other |
| `Disks.MeasureDirectory` | apps/record-store-server/src/backup.rs:1030-1036 | The saturating total of the sizes of all files below a directory |
| `Disks.CheckDestinationSpace` | apps/record-store-server/src/backup.rs:827-843 | Refuses exactly when the free space is below the requirement with its margin, and reports both numbers |
| `Disks.CopyFile` | apps/record-store-server/src/backup.rs:619-634 | One guarded copy: an unsafe path is refused before anything is written, a size or digest that differs from the expected one after |
| `BackupCommand.Backup` | apps/record-store-server/src/backup.rs:256-358 | Stops somewhere along its script, at its end on success; refuses, by name, a missing, uninitialised or half-restored deployment, a complete destination and one that is not empty, and leaves all as it is; on success the destination holds the deployment's files as a backup files them, and the manifest tells what `ManifestExactly` says |
| `BackupCommand.CopyTree` | apps/record-store-server/src/backup.rs:1038-1074 | Performs exactly the copies of the component's files that are not scratch, and returns their entries and saturating counters |
| `BackupCommand.CopyComponents` | apps/record-store-server/src/backup.rs:299-314 | Performs the components' copies in order and gathers all entries and one summary per component |
| `BackupCommand.Describe` | apps/record-store-server/src/backup.rs:315-344 | The manifest assembled from what was copied, versions read back from the destination, is the one the data directory calls for, which `ManifestExactly` spells out |
| `RestoreCommand.Restore` | apps/record-store-server/src/backup.rs:560-675 | Writes nothing unless the backup is admitted; however it ends, the marker is there, or nothing changed, or the components are the manifest's; success means the last with no marker and without its own staging directory, and with no staging directory at all if and only if there was none before it or the marker was there; a populated directory is refused untouched; nothing unrelated changes; an encrypted backup is reported with its key confirmed |
| `RestoreCommand.Admit` | apps/record-store-server/src/backup.rs:565-593 | Lets a backup through exactly when it is usable at the level asked for and its sealing key is the configured one |
| `RestoreCommand.RestoreOutcome` | apps/record-store-server/src/backup.rs:595-649 | The same outcomes for a restore stopped after any of its operations |
| `RestoreCommand.PopulatedIsRefused` | apps/record-store-server/src/backup.rs:598-613 | Without the marker, a data directory with anything in a component is left as it is |
| `RestoreCommand.Install` | apps/record-store-server/src/backup.rs:637-647 | Performs, component by component, the removal of the old and the rename of the staged directory |
| `LegacyRestore.BothRestoresAgree` | apps/record-store-server/src/lib.rs:787-834 | From any version 1 directory both commands accept, and into any two data directories, `restore_metadata` and `restore` leave the same files below `metadata` |
| `LegacyRestore.LegacyInterrupted` | apps/record-store-server/src/lib.rs:787-834 | Stopped anywhere before its last step, `restore_metadata` has not changed a file below `metadata` |
| `LegacyRestore.LegacyRestored` | apps/record-store-server/src/lib.rs:814-833 | Finished, every listed name was acceptable and matched, and `metadata` holds exactly the listed files |
| `LegacyRuns.LegacyRunsExactly` | apps/record-store-server/src/lib.rs:787-834 | With nothing failing underneath, `restore_metadata` reaches its end if and only if the data directory is absent or has no metadata, the name for its staging directory is free, the manifest has at most 1 MiB, decodes, is of version 1 and a schema up to 6, and the listed files are there, match in size and digest and have distinct accepted names |
| `LegacyRuns.LegacyLeaves` | apps/record-store-server/src/lib.rs:814-833 | It leaves, below `metadata`, each listed file as the version 1 directory has it and no other |
| `LegacyRuns.LegacyRefusesFirst` | apps/record-store-server/src/lib.rs:791-813 | Where there is metadata already, or no manifest it takes, it does nothing but make the data directory |
| `LegacyRuns.FilenameExactly` | apps/record-store-server/src/lib.rs:875-882 | The accepted names are those of at most 128 letters, digits, hyphens, underscores and dots that end in `.redb` |
| `Sample.SampleMetadataRestore` | apps/record-store-server/src/lib.rs:787-834 | One version 1 directory with `catalog.redb` and `credentials.redb`, restored to the end |
| `LegacyRestore.LegacyAtOnce` | apps/record-store-server/src/lib.rs:787-834 | At every interruption, the files of all three components are as they were until the last step, which replaces those of the metadata alone; an unfinished restore's marker is neither made nor removed |
| `LegacyRestore.RestoreMetadata` | apps/record-store-server/src/lib.rs:787-834 | However it ends, the files below `metadata` are as before or exactly the manifest's; success means the latter; a failure that is not one of the file system names what is wrong: the populated directory, the manifest, its version, the name or the file that does not match |
| `LegacyRestore.FilenameIsPlain` | apps/record-store-server/src/lib.rs:875-882 | An accepted file name is a single path segment that cannot leave the directory |
| `Preflight.StartupChecks` | apps/record-store-server/src/preflight.rs:145-157 | The gate opens exactly when no probe failed and no restore is unfinished |
| `Preflight.Worst` | apps/record-store-server/src/preflight.rs:150-156 | The report's status is that of some check and none is worse |
| `Preflight.ExistingAncestor` | apps/record-store-server/src/preflight.rs:351-364 | The nearest existing ancestor, or none exactly when there is none |
| `ClusterGuard.ComesUpUnderItsOwnName` | apps/record-store-server/src/cluster.rs:138-266 | Whatever the files said, a start that is not refused ends with a bound identity and, without seeds, with the recorded cluster equal to the identity's |
| `ClusterGuard.UpInARun` | apps/record-store-server/src/cluster.rs:138-266 | In every run of starts, crashes, losses and replication, a node comes up only under the cluster its identity was bound to |
| `ClusterGuard.NeverRebound` | apps/record-store-server/src/cluster.rs:164-213 | Over every run, an identity once bound stays bound to that cluster |
| `ClusterGuard.SameNodeSameCluster` | crates/record-store-cluster/src/identity.rs:89-117 | Whenever the identity file names one node at two moments of a run and it is bound at the first, it names the same cluster |
| `ClusterGuard.FormsOnlyWhenFree` | apps/record-store-server/src/cluster.rs:475-565 | `InitializeCluster` is planned only with no seeds, no recorded cluster and no sampled payload, names the identity's own cluster, and for an identity already bound needs a credential issued here |
| `ClusterGuard.NoIdentityBesideState` | apps/record-store-server/src/cluster.rs:138-157 | A new identity is planned only where there is neither an identity file nor consensus state |
| `ClusterGuard.GuardRefusesFirst` | apps/record-store-server/src/cluster.rs:252-266 | However far a start that the guard refuses gets, the payloads are untouched and the consensus state is what it was, or empty where there was none |
| `ClusterGuard.FormsLast` | apps/record-store-server/src/cluster.rs:138-266 | Whatever the start: the record of a new cluster is its last write, made when the node is the only member, nothing is recorded and the identity on file is bound to that cluster |
| `ClusterGuard.FormsExactly` | apps/record-store-server/src/cluster.rs:138-565 | For every state of the files: a start forms a cluster if and only if it gets past its checks, no cluster is recorded, no payload sampled, no seed given, and an identity already bound has a credential issued here |
| `ClusterGuard.JoinedFormsExactly` | apps/record-store-server/src/cluster.rs:164-213 | With seeds, or with a credential from a join on file, a cluster is formed if and only if there are no seeds, nothing recorded or stored, and the identity is lost or unbound |
| `ClusterGuard.JoinedFormsAnother` | apps/record-store-server/src/cluster.rs:164-213 | A run that reaches this: a member loses its identity and its consensus state, and the next start without seeds forms another cluster |
| `ClusterGuard.FormsJoinedNeedsStaleCredential` | apps/record-store-server/src/cluster.rs:200-213 | In every sound world, a start that forms a cluster its identity only joined does so under a credential issued to another node |
| `ClusterGuard.FormsJoinedExactly` | apps/record-store-server/src/cluster.rs:475-565 | Of an identity bound by a join, the exact condition on files and seeds under which a start forms the cluster alone |
| `ClusterGuard.StaleIsReachable` | apps/record-store-server/src/cluster.rs:166-213 | A run of four events that leaves a joined identity beside an older credential |
| `ClusterGuard.JoinedClusterFormedAlone` | apps/record-store-server/src/cluster.rs:475-565 | From there, a start without seeds forms the joined cluster |
| `ClusterRestarts.ComesUpExactly` | apps/record-store-server/src/cluster.rs:138-266 | For every state of the files, with or without seeds: a start comes up if and only if it gets past its checks, has a cluster to go for, contradicts no record and, without seeds and with nothing recorded, leaves no payloads behind and has a credential issued here if its identity was bound before |
| `ClusterRestarts.RefusedExactly` | apps/record-store-server/src/cluster.rs:138-266 | A start gives a reason for being refused if and only if that is the first thing in its way, for each of the ten reasons |
| `ClusterRestarts.LeavesExactly` | apps/record-store-server/src/cluster.rs:138-266 | A start that comes up leaves exactly this: the identity bound to the cluster it went for, the credential it had or was given, and the consensus state with this node in it and the cluster recorded if it had no one to ask |
| `ClusterRestarts.CutStartRestarts` | apps/record-store-server/src/cluster.rs:164-266 | After any start that would have come up, cut off after any of its writes, a next start with whatever seeds comes up if and only if the node is not bound with the credential missing (or, without seeds and with nothing recorded, from a join), and no payloads or other cluster's record are in its way |
| `ClusterRestarts.CutAloneRestarts` | apps/record-store-server/src/cluster.rs:164-213 | The same for starts without seeds, in terms of the files before the first and of the cut: down if and only if cut off between binding and saving with no credential on file or, nothing recorded, one from a join, or a record beside an unbound identity is not the one minted again |
| `ClusterRestarts.AlwaysRestartsExactly` | apps/record-store-server/src/cluster.rs:164-213 | Decided before the start: every cut can be followed by a start that comes up if and only if the identity is bound already, or there is a credential on file that will do until the new one is saved |
| `ClusterRestarts.CutJoinRestarts` | apps/record-store-server/src/cluster.rs:166-213 | The same for starts with seeds: down if and only if cut off between binding and saving with no credential on file, or not yet bound and the next join fails or names another cluster than is recorded |
| `ClusterRestarts.StuckStaysDown` | apps/record-store-server/src/cluster.rs:200-266 | A node that cannot start stays so over any stretch of starts with the same seeds, all of which are refused |
| `ClusterRestarts.BoundWithoutCredentialStaysDown` | apps/record-store-server/src/cluster.rs:209-213 | Over any stretch of a run that consists of starts, with or without seeds, a node with a bound identity and no credential stays exactly as it is, and every start is refused |
| `ClusterRestarts.NoCredentialIsReachable` | apps/record-store-server/src/cluster.rs:200-213 | A first start cut off after two writes leaves a node stuck for starts with and without seeds |
| `ClusterRestarts.JoinCredentialIsReachable` | apps/record-store-server/src/cluster.rs:475-565 | A run that leaves a freshly bound identity beside the credential of an earlier join, from which every start without seeds is refused |
| `ClusterGuard.StepKeepsSound` | apps/record-store-server/src/cluster.rs:138-266 | Every event keeps the identity file in step with what was bound and issued credentials with minted identities, and only adds bindings |
| `ClusterStart.Initialize` | apps/record-store-server/src/cluster.rs:138-266 | The start-up sequence keeps to its plan and gives the plan's verdict; up means under its own cluster, with the files as `LeavesExactly` says; refused means for the reason that applies; a cluster is formed only when free to |
| `ClusterStart.RefuseToInventAuthority` | apps/record-store-server/src/cluster.rs:475-508 | Refuses exactly a recorded cluster that is not the identity's, and payloads with nothing recorded and no seeds |
| `ClusterStart.BootstrapCluster` | apps/record-store-server/src/cluster.rs:510-565 | Makes the node the only member if it is none, leaves a recorded cluster alone, records the identity's own otherwise, and refuses without an issued credential |
| `ClusterStart.Bind` | crates/record-store-cluster/src/identity.rs:89-117 | Binding is refused exactly when the identity is bound to another cluster or is another member |
| `PayloadSample.StoredPayloadSample` | apps/record-store-server/src/cluster.rs:436-458 | The walk with its shared counter and early exits returns the smaller of the limit and the number of regular files at most four names below `objects`; zero exactly when there is none |
| `PayloadSample.Walk` | apps/record-store-server/src/cluster.rs:437-455 | From any directory and any count so far, the counter grows by the files within reach, up to the limit |
| `Mounts.RoundTripExactly` | apps/record-store-server/src/discovery.rs:215-256 | For every table of entries whose other fields stay one field and whose mount points are any non-empty texts: parsing what the kernel prints gives the entries back if and only if every mount point is ASCII without carriage return, vertical tab or form feed |
| `Mounts.ParseOfPrint` | apps/record-store-server/src/discovery.rs:215-233 | What does come back: one entry for every entry, in order, each byte of a character beyond ASCII turned into a character of its own |
| `Mounts.SurvivesExactly` | apps/record-store-server/src/discovery.rs:236-256 | A path survives being escaped and unescaped if and only if it is ASCII |
| `Mounts.Unescape` | apps/record-store-server/src/discovery.rs:236-256 | The decoding loop computes the specified decoding of the UTF-8 bytes, signs, short and overflowing digits included |
| `Mounts.OctalExactly` | apps/record-store-server/src/discovery.rs:244-250 | An escape counts if and only if what follows the backslash, a plus sign aside, is octal digits that write at most 255, and it stands for that byte |
| `Mounts.LiteralIsKept` | apps/record-store-server/src/discovery.rs:250-253 | ASCII text in which no backslash is followed by an octal digit or a sign is left as it is |
| `Mounts.EncodingDecodes` | apps/record-store-server/src/discovery.rs:238-243 | The bytes a character is taken apart into put together again are that character |
| `Mounts.LineByLine` | apps/record-store-server/src/discovery.rs:215-233 | The entries of a table are those of its lines, one after the other, the last line ended by a newline or not |
| `Mounts.FieldsOfALine` | apps/record-store-server/src/discovery.rs:218-231 | Two words are no entry, three are one without options, a fourth is the options |
| `Mounts.AccentIsLost` | apps/record-store-server/src/discovery.rs:239-243 | One mount point beyond ASCII that does not come back |
| `Mounts.ReturnIsLost` | apps/record-store-server/src/discovery.rs:215-225 | One ASCII mount point that does not come back |
| `Topology.LeavesAreTheNodes` | console/features/cluster/topology-screen.tsx:44-79 | Unless empty, the tree has exactly the given nodes as leaves, each as often as it was given, under every collation |
| `Topology.EmptyExactly` | console/features/cluster/topology-screen.tsx:44-57 | The tree is empty exactly when no node has a non-empty label at any level |
| `Topology.LabelsMatch` | console/features/cluster/topology-screen.tsx:44-79 | At every depth, the level shown is the first at which some node there is labelled, and none is left out otherwise; every node below carries each label on the way, and nodes hang where no further level is in use |
| `Topology.TreeInOrder` | console/features/cluster/topology-screen.tsx:58-79 | Siblings come in the collation's order of their values, and the nodes of each in the order they were given in |
| `Topology.RegionAndRack` | console/features/cluster/topology-screen.tsx:44-79 | One node with a region and a rack, and the tree that comes of it |
| `Topology.SiblingsDiffer` | console/features/cluster/topology-screen.tsx:66-79 | No two siblings carry the same text |
| `Topology.TopologySiblingsDiffer` | console/features/cluster/topology-screen.tsx:25-79 | So it is in the tree the console builds of any nodes |
| `Topology.GroupNodes` | console/features/cluster/topology-screen.tsx:58-64 | Filling the map in place yields the values in order of first occurrence, each with its nodes in order |
| `Topology.Build` | console/features/cluster/topology-screen.tsx:44-79 | The recursion over groups builds the specified tree |
| `Quota.UntouchedIsUnchanged` | console/features/buckets/quota-section.tsx:27-102 | An untouched form sends the identical quota if and only if the byte limit is a safe integer and the object limit is read exactly; so it does for every pair of limits from 0 to 2^53-1 |
| `Quota.AcceptedIsShownExactly` | console/lib/byte-size.ts:25-56 | Every positive byte count accepted from any text and unit is shown again in the largest unit that divides it, at least the one typed, and multiplies back |
| `Quota.ToBytesExactly` | console/lib/byte-size.ts:47-57 | Text and unit are accepted if and only if the text, blanks around it aside, is a whole number, and that many powers of a thousand are at most 2^53-1; then they are the count |
| `Quota.TrimmedExactly` | console/lib/byte-size.ts:48 | What is trimmed is blank, and what is left neither starts nor ends with a blank |
| `Quota.DecimalIsShort` | console/lib/byte-size.ts:41-44 | Counts are shown without leading zeros |
| `Quota.SentExactly` | console/features/buckets/quota-section.tsx:81-102 | A quota is sent if and only if every limit switched on reads as one, and it is of those limits |
| `Quota.SplitReadsBack` | console/lib/byte-size.ts:41-56 | Splitting a byte count up to 2^53-1 and reading it back gives that count; zero is split into zero bytes |
| `Quota.ExactUnit` | console/lib/byte-size.ts:25-32 | The loop chooses the largest dividing unit, and bytes for zero |
| `Quota.Submit` | console/features/buckets/quota-section.tsx:81-102 | Setting the two limits in turn, with its two ways out, sends exactly the quota that `UntouchedIsUnchanged` speaks about, or nothing |

## Left out

- Syncing: writes are durable in program order. `backup` syncs only each component's top directory, so a model with reordered writes would promise less of it.
- Symbolic links, file permissions, names that are not Unicode text, and a destination inside the data directory.
- The S3 interface, signatures, consensus, storage, audit and sharing crates, except the pages of payload references.
- Consensus itself: leader election, replication and the joining handshake are an abstract recorded cluster and an abstract outcome.
- The rest of the server's life: serving, workers, observation, shutdown.
- The machine probes of the start-up checks (ports, permissions, free space, devices) are given outcomes.
- What `backup_metadata` writes, to a directory of its own that is none of the destinations of a run; and `candidates`, a filter over parsed mounts.
- The lock file itself, and the making of the data directory by a server before it asks for the lock.
- The command line, and the console beyond the grouping and the quota form.
- DeploymentRuns.UsableBackupIsOneInstant: assumes no digest shared by different contents at hand.
- LegacyRestore.BothRestoresAgree: assumes a version 1 manifest is not also readable as a version 2 one.
- ClusterStart.Initialize: ends where nothing durable is decided any more; later failures of a start are not modelled.
- Quota.UntouchedIsUnchanged: numbers beyond 2^53-1 are whole numbers here, where the console has already rounded them.
