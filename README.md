# WowSettingBackup in Dafny

A model of the core of WowSettingBackup, a tool that backs up and restores
World of Warcraft add-ons (`Interface`) and settings (`WTF`), with proofs
about it. It covers these parts of the program:

- the GUI application's backup and restore pipelines (`WowAddonSync.py`):
  - path validation, the staging directory, the two tree copies, compression
    and finalizing;
  - rotation of old backups;
  - the scheduler loop;
  - cleaning of log messages;
- the ZIP `CompressionManager` (`old/compression.py`): collecting, sorting and
  batching files, integer progress values, extraction, validation and listing;
- the background service (`old/service.py`): configuration, path validation
  that fills in a default temporary base, the backup pipeline, rotation, and
  one pass of the service loop, with its retry five minutes after a failure.

The disk is an abstract file system (`FileTree`). It has explicit
directories and a map from path to content, and a directory also exists
when anything lies below it. Copies are a mirror operation: afterwards the
destination holds exactly the source's tree. Removals, moves and
`os.makedirs` are functions on that value. An archive is kept as its
members (relative path to entry); the ZIP format is not modelled.

All inputs from the environment are parameters:

- the clock (as whole seconds, or as a `Timestamp` for backup names);
- whether each operating-system step succeeds;
- the file sizes that can be read, and the files that cannot be read or
  written;
- the parsed configuration file.

Modules:

- `Wrappers`: `Option`.
- `FileTree`: the file system and frame lemmas for its operations.
- `BackupNames`: the `%Y%m%d_%H%M%S` stamp, `<stamp>.zip` names and the
  finding below.
- `Layout`: where things go, and which of those paths never nest.
- `Retention`: the rotation policy and its loops.
- `Scheduling`: interval units, the GUI tick and the service tick.
- `Compression`: `CompressionManager`.
- `App`: the GUI's pipelines, as the class `BackupApp`, whose file system and
  progress trail change.
- `Service`: `BackupService`, whose configuration, file system and next
  backup time change.

Where the code and its documentation differ, the model follows the code:

- A GUI backup whose staging directory holds no readable file fails.
  `_zipfile_compression` returns True without creating an archive, and the
  move in `_finalize_backup` then has nothing to move. That is, unless a
  file already lies at the archive's path.
- Rotation deletes backups newest first. After the first failed removal it
  stops, and the failure is only logged.
- `decompress_archive` returns True however many entries fail.
- `validate_archive` fails an archive whose file entries do not all pass
  their integrity check.

## Model

| member | source | states |
|---|---|---|
| BackupNames.BeforeIsStrictTotalOrder | WowAddonSync.py:831 | the order rotation sorts backups by is irreflexive, asymmetric, transitive and total on distinct times |
| BackupNames.Format | WowAddonSync.py:655 | a stamp is fifteen characters: eight digits, `_`, six digits |
| BackupNames.ParseFormat | WowAddonSync.py:820-821 | reading back the stamp written for a valid time gives that time |
| BackupNames.FormatParse | WowAddonSync.py:821 | every string `strptime` accepts, in the shape `strftime` writes, is exactly the stamp of the time it yields |
| BackupNames.ParseArchiveNameOfArchiveName | WowAddonSync.py:817-822 | rotation recognises every name `<stamp>.zip` the backup step writes (line 783), with its time |
| BackupNames.ArchiveNameDeterminedByTime | WowAddonSync.py:817-822 | under the corrected stem, a recognised name is exactly `<stamp>.zip` of its time, so a name is fixed by its time |
| BackupNames.RemoveAll | WowAddonSync.py:820 | `str.replace(pat, "")` never lengthens the text (what it removes is shown by the lemmas below) |
| BackupNames.ForeignNameStem | WowAddonSync.py:820 | removing every `.zip` from `2024.zip0101_120000.zip` leaves `20240101_120000` |
| BackupNames.ForeignNameParsedAsWritten | WowAddonSync.py:820-821 | as written, that name is taken for a backup of 2024-01-01 12:00:00; the corrected reading rejects it |
| BackupNames.AsWrittenAgreesOnArchiveNames | old/service.py:244-245 | on names the backup step writes, the as-written and corrected readings agree and give the stamp's time |
| BackupNames.NumberOfPad | WowAddonSync.py:655 | a zero-padded decimal field reads back as its number |
| BackupNames.PadOfNumber | WowAddonSync.py:821 | a digit field is the zero-padded rendering of its value |
| Layout.LayoutDisjoint | WowAddonSync.py:715-731 | the staging directory and the archive beside it lie apart; neither lies inside a live directory; the two live directories, the two staged halves, and each staged half and the live directory of the other name lie apart; a staged half and the live directory of its own name lie apart exactly unless the WoW folder is named like the temporary base and the version like the stamp |
| Layout.StagingApartFromLive | WowAddonSync.py:655-657 | the staging directory lies apart from each live directory exactly unless the temporary base is named like the WoW folder and the stamp like the version |
| Layout.RestoreLayoutDisjoint | WowAddonSync.py:927-952 | each live directory lies apart from the unpacked tree of the other name, and the unpacking directory is not inside either one |
| Retention.ListDir | WowAddonSync.py:816 | every file directly in the folder is listed, and every listed name exists |
| Retention.BackupsIn | WowAddonSync.py:815-825 | exactly the listed names that end in `.zip` and whose stem parses are backups; each is the name of its own time |
| Retention.BackupsAreDistinct | WowAddonSync.py:815-825 | no two backups carry the same time |
| Retention.RotationPartition | WowAddonSync.py:836-861 | kept and removed are disjoint and together are the backups; every recent backup is kept; every removed one is old and has a newer old backup in its month |
| Retention.OneKeeperPerMonth | WowAddonSync.py:840-852 | every month with an old backup keeps exactly one old backup, its newest |
| Retention.NewestExists | WowAddonSync.py:831 | every non-empty set of backups has a newest member |
| Retention.RotationIdempotent | old/service.py:261-285 | rotating the survivors again, with the same cutoff, removes nothing |
| Retention.CollectBackups | WowAddonSync.py:815-825 | the listing loop builds exactly the backups found by `BackupsIn` |
| Retention.MonthlyKeepers | WowAddonSync.py:841-848 | every month with an old backup gets a keeper, and each keeper is an old backup of its month that none is newer than |
| Retention.KeepersGiveKeepSet | WowAddonSync.py:850-852 | the recent backups together with the keepers are exactly the backups to keep |
| Retention.RotateBackups | WowAddonSync.py:806-869 | a missing folder is left alone; at most the backups to remove are deleted, and the result reports success exactly when all of them are; nothing else changes; every one deleted is newer than every one that should have gone and stayed; when `os.remove` refuses none of them and all are files, all go; otherwise it stopped at the newest one left, which was refused or no file; none of those deleted was refused |
| Retention.DeleteNewestFirst | WowAddonSync.py:854-861 | only doomed files are deleted, all of them exactly on success, and each deleted one is newer than each one left, so deletion goes newest first; with no refusal among the doomed it succeeds, and when it stops short, the newest one left was refused or was no file; none it deleted was refused; the result is the folder minus the deleted files |
| Retention.ListDirAfterRemove | WowAddonSync.py:856-859 | deleting files from a folder takes exactly their names off its listing |
| Retention.SecondRotationRemovesNothing | old/service.py:229-293 | after a rotation that ran to the end, a second rotation of the folder at the same cutoff finds nothing to remove |
| Scheduling.UnitOf | WowAddonSync.py:1056-1061 | minutes exactly for "minutes", hours exactly for "hours", days for anything else |
| Scheduling.DurationUnits | old/service.py:78-87 | a minute interval is 60 s each; 60 minutes equal an hour; 24 hours equal a day of any other unit name |
| Scheduling.DurationSign | WowAddonSync.py:1056-1061 | a duration has the sign of its interval |
| Scheduling.NatToString | WowAddonSync.py:1052 | `str(n)` for a natural number is non-empty decimal digits whose value is `n` |
| Scheduling.IntToString | WowAddonSync.py:1052 | `str(i)` is non-empty and holds only digits and `-` |
| Scheduling.IntToStringInjective | WowAddonSync.py:1052 | two integers with the same text are equal |
| Scheduling.SettingsKeyInjective | WowAddonSync.py:1052 | two settings share the key `"<interval>_<unit>"` exactly when interval and unit are equal |
| Scheduling.GuiTick | WowAddonSync.py:1041-1083 | disabled: every entry cleared, no backup. Enabled: the key is added (`now + interval` when unseen), the backup fires exactly when `now` reaches the entry, and a fired entry moves to `now + interval`; other entries stay |
| Scheduling.GuiFirstPassWaits | WowAddonSync.py:1054-1067 | with a positive interval, the pass that first schedules a key does not fire |
| Scheduling.GuiNoFireBeforeDue | WowAddonSync.py:1066-1077 | while the settings stay put, no backup starts before the time the entry holds |
| Scheduling.GuiFiresSpaced | WowAddonSync.py:1066-1077 | while the settings stay put, two scheduled backups start at least one interval apart |
| Scheduling.SchedulerLoop | WowAddonSync.py:1037-1089 | the loop over a run of passes from an empty dictionary fires exactly as the passes composed |
| Scheduling.ServiceTick | old/service.py:306-326 | disabled: no time, no backup. Enabled: the time, set to `setClock + interval` when absent, fires exactly when reached; then `doneClock + interval` after a success, `current + 5 min` after a failure |
| Scheduling.ServiceFirstPassWaits | old/service.py:310-316 | with a positive interval, the pass that first sets the time does not fire |
| Scheduling.ServiceNextIsLater | old/service.py:316-324 | after a pass that ran a backup, the next time lies after the pass's clock |
| Scheduling.ServiceAlwaysScheduled | old/service.py:306-326 | after a pass there is a next time exactly when the scheduler is enabled |
| Compression.TicksOnBand | old/compression.py:263-270 | the per-file values lie on their band, never go down, and end at its top |
| Compression.BandedIsNonDecreasing | old/compression.py:255-336 | values at or below a band, then the band, then values at or above it, never go down |
| Compression.Batches | old/compression.py:316-317 | the slices of 100 cover the sorted files in order and exactly once; each is non-empty and at most 100 long, and all but the last are full |
| Compression.BatchesFrom | old/compression.py:316-317 | stepping the slice start by 100 walks exactly those batches |
| Compression.MembersFor | old/compression.py:283-300 | the archive has an entry exactly for each collectable file among those written, under its relative path, holding that file's data and size |
| Compression.CompressionManager.CompressionLevel | old/compression.py:222 | level 3 in fast mode, 9 otherwise |
| Compression.CompressionManager.CompressDirectory | old/compression.py:22-39 | reports 70, then forwards `_zipfile_compression`'s outcome; its values never go down and stay within 70..85 |
| Compression.CompressionManager.ZipfileCompression | old/compression.py:213-353 | nothing collected: True, the file system untouched, only 75. Archive cannot be created: False after 75, 78. Otherwise True, the archive of every readable collected file written, and 75, 78, one value per file, 85 |
| Compression.CompressionManager.CollectFiles | old/compression.py:228-242 | every collectable file once, each as (path, path relative to the root, size), and their sizes summed |
| Compression.CompressionManager.SortBySize | old/compression.py:250 | the files largest first, a permutation of the input |
| Compression.CompressionManager.InsertionPoint | old/compression.py:250 | the place after every entry at least as large, so equal sizes keep their order |
| Compression.CompressionManager.CompressFiles | old/compression.py:312-333 | the batch loop puts every readable file into the archive, counts the unreadable ones and reports one value per file |
| Compression.CompressionManager.CompressBatch | old/compression.py:316-333 | one batch extends the archive, the count and the values from the files before it to the files up to its end |
| Compression.CompressionManager.CompressFile | old/compression.py:283-305 | succeeds exactly when the file can be read; then its entry is added under its relative name, otherwise the archive is unchanged |
| Compression.CompressionManager.DecompressArchive | old/compression.py:41-141 | missing archive: False, no value, nothing made. Directory cannot be made: False after 10. Not a ZIP file: the directory made, False after 10. A ZIP file: every extractable entry written, 10, 20, one value per entry, 90, and True whatever entries failed; values within 10..90 and never going down |
| Compression.CompressionManager.ExtractMembers | old/compression.py:69-124 | all entries extracted into the directory (the folder of every file entry made, every intact file that can be written written), one progress value per entry |
| Compression.CompressionManager.ExtractFile | old/compression.py:93-103 | a directory entry makes its directory; a file entry makes its folder, and is written unless its check or the write fails |
| Compression.ExtractMakesFolders | old/compression.py:97 | unpacking makes the folder of every file entry, whether or not its write succeeds |
| Compression.CompressionManager.ValidateArchive | old/compression.py:179-211 | True exactly for an existing ZIP file all of whose file entries pass their check; only existing files are valid |
| Compression.CompressionManager.CompressedArchiveValidates | old/compression.py:196-204 | an archive just written by a compression passes validation |
| Compression.CompressionManager.ListArchiveContents | old/compression.py:143-177 | None exactly when the path is not a ZIP file; otherwise one record per entry, none twice, each the entry's name, size and kind |
| Compression.ProgressOfCompression | old/compression.py:255-336 | a compression's values 70, 75, 78, the per-file values, 85 never go down and stay within 70..85 |
| Compression.ProgressOfDecompression | old/compression.py:60-127 | a decompression's values 10, 20, the per-entry values, 90 never go down and stay within 10..90 |
| Compression.ExtractOfCompressed | old/compression.py:93-103 | extracting a compression's archive into an empty directory reproduces exactly the readable collected files, at their relative paths, with their data |
| FileTree.SubtreeOfMirror | WowAddonSync.py:745-747 | after a copy, the destination holds exactly the source's tree |
| FileTree.SubtreeOfMirrorDisjoint | WowAddonSync.py:745-747 | a copy leaves every tree apart from its destination alone |
| FileTree.SubtreeOfRemoveTreeDisjoint | WowAddonSync.py:997-998 | removing a tree leaves every tree apart from it alone |
| FileTree.RemovedTreeIsGone | WowAddonSync.py:997-998 | a removed tree no longer exists |
| FileTree.ExistsIffSubtree | WowAddonSync.py:954 | a path exists exactly when something lies at or below it |
| App.AsciiOnly | WowAddonSync.py:627 | only ASCII characters remain, and the text does not grow; one character stays exactly when it is ASCII |
| App.AsciiOnlyConcat | WowAddonSync.py:627 | the filter works character by character: filtering a joined text joins the filtered parts, so with the one-character case the result is every ASCII character of the text, in order |
| App.AsciiOnlyOfAscii | WowAddonSync.py:627 | ASCII text passes through unchanged |
| App.Lead | WowAddonSync.py:627 | the number of leading white-space characters, all white space, with no white space after them |
| App.Trail | WowAddonSync.py:627 | the number of trailing white-space characters, all white space, with no white space before them |
| App.Strip | WowAddonSync.py:627 | the result neither starts nor ends with white space; text that is only white space becomes empty; otherwise the result is the text minus exactly its leading and trailing white space |
| App.StripOfStripped | WowAddonSync.py:627 | stripping stripped text changes nothing |
| App.CleanLogMessage | WowAddonSync.py:627-631 | the stripped ASCII text when any is left, which is then plain too; otherwise the message unchanged; empty exactly for the empty message |
| App.CleanKeepsPlainText | WowAddonSync.py:627-631 | plain ASCII text with no surrounding white space is logged unchanged |
| App.CleanIdempotent | WowAddonSync.py:627-631 | cleaning a cleaned message changes nothing |
| App.StagedCopies | WowAddonSync.py:715-731 | after staging, `<temp>/Interface` and `<temp>/WTF` hold exactly the live trees |
| App.NewBackupKept | WowAddonSync.py:836-837 | a backup dated on or after the cutoff is never among those rotation removes |
| App.FinalizedArchive | WowAddonSync.py:785-797 | the moved archive is untouched by removing the staging directory and by rotation, which at most deletes it |
| App.FinalizedBackupKept | WowAddonSync.py:785-799 | a backup dated on or after the cutoff is still at its destination after finalizing, whatever the rotation deleted |
| App.ReplacedTree | WowAddonSync.py:985-1011 | a replaced directory holds exactly its source's tree, nothing it held before, and a directory apart from it is untouched |
| App.ClearedTree | WowAddonSync.py:989-998 | a cleared directory is gone, and a directory apart from it is untouched |
| App.ExtractElsewhere | WowAddonSync.py:944 | unpacking into a directory leaves every tree apart from it untouched |
| App.UnpackedTreeExists | WowAddonSync.py:944-954 | an archive holding a file anywhere below `Interface` (or `WTF`) passes the restore's existence check for that tree, even when no entry can be written |
| App.BackupApp.ValidateBackupPaths | WowAddonSync.py:681-704 | Interface, then WTF, then the temporary base (made when missing); the first failing check is the answer, and nothing is made unless all pass |
| App.BackupApp.CreateTempDirectory | WowAddonSync.py:706-713 | reports 5, then makes the staging directory or fails |
| App.BackupApp.Robocopy | WowAddonSync.py:733-749 | a mirroring copy, or a failure that changes nothing |
| App.BackupApp.CopyWowDirectories | WowAddonSync.py:715-731 | 10, Interface, 35, 40, WTF, 65, stopping at the first failed copy, with the state it leaves |
| App.BackupApp.CompressBackup | WowAddonSync.py:751-776 | succeeds exactly when nothing was collected or the archive can be created; the archive of the staged files then lies beside the staging directory; the compressor's values pass through |
| App.BackupApp.FinalizeBackup | WowAddonSync.py:778-804 | reports 90; makes the destination, moves the archive, removes the staging directory and rotates (deleting only backups it should, newest first, all unless one is refused, and none that was refused); fails when the destination cannot be made, the archive is missing or cannot be moved, or the new backup is gone afterwards, which a backup dated on or after the cutoff never is |
| App.BackupApp.StageAndCompress | WowAddonSync.py:659-665 | succeeds exactly when the staging directory is made, both copies go through and, when anything was collected, the archive can be created; on success, values 5, 10, 35, 40, 65 and the compressor's, and the staged trees' archive beside the staging directory. Whatever the outcome the file system is `AfterStaging`: each failing step leaves what the steps before it made (nothing, the empty staging directory, or the staging directory with the Interface copy), and a failed compression leaves both copies without an archive |
| App.BackupApp.BackupOperation | WowAddonSync.py:643-679 | starts at 0. A failed validation returns before anything is made; any later failure ends at 0. A success needs valid paths and every later step to go through, and for a backup dated on or after the cutoff that is also enough. A success reports 0, 5, 10, 35, 40, 65, the compressor's values, 90, 100 and leaves the archive of the staged trees at `<dest>/<stamp>.zip`. Whatever the outcome the file system is `AfterBackup`: the validated paths, then what each step that ran left, with nothing cleaned up after a failure, and the rotation's deletions, which `BackupRotated` bounds |
| App.BackupApp.DeliverBackup | WowAddonSync.py:659-677 | after validation: staging, compressing, finalizing, then 100; it succeeds only when every step goes through (`Delivers`), and always then for a backup dated on or after the cutoff; a failure ends at 0; the trail only grows; the file system is `AfterDelivery`, staging's result and, when staging succeeded, finalizing's |
| App.BackupApp.FinishBackup | WowAddonSync.py:668-670 | 90 then 100, with the staged archive at the backup's place, or 90 then 0 when finalizing fails; success needs the destination made and the archive moved, and that is enough for a backup dated on or after the cutoff; the file system is `AfterFinalize` and the deletions are bounded by `FinalizeRotated` |
| App.BackupApp.MoveIntoPlace | WowAddonSync.py:778-804 | `_finalize_backup` as its caller sees it: success only when the archive can be moved into place, and then always for a backup dated on or after the cutoff; the backup then holds the staged archive unchanged. The file system is `AfterFinalize`: nothing made when the destination cannot be made; the destination made but nothing moved when the move cannot happen; otherwise the archive moved, the staging directory removed and the rotation's deletions, none of them refused |
| App.BackupLeavesOthers | WowAddonSync.py:643-679 | whatever its outcome, a backup leaves alone every tree at depth three or more that lies apart from its staging directory |
| App.BackupLeavesLiveTrees | WowAddonSync.py:643-679 | whatever its outcome, a backup leaves the live Interface and WTF trees exactly as they were, unless the staging directory is their parent |
| App.StagingLeftBehind | WowAddonSync.py:674-677 | once the staging directory is made, it is still there after the backup exactly when staging failed or the archive was not moved into place: the failure path cleans nothing up |
| App.BackupApp.RestoreDirectory | WowAddonSync.py:985-1017 | whatever is at the destination is removed, then the source copied there; a failed copy leaves the destination removed and reports failure |
| App.BackupApp.PerformRestore | WowAddonSync.py:896-983 | after the start's 0: a missing archive stops there; an invalid one stops after 10; an unpacking directory that cannot be made, or an unpacked tree without both `Interface` and `WTF`, stops after 20; none of these touch the live directories. Then Interface is replaced (75), WTF (85), the unpacking directory removed (95), then 100; a failed copy reports 0 and leaves that live directory removed |
| App.BackupApp.ReplaceLiveTrees | WowAddonSync.py:960-976 | Interface before WTF; a failed Interface copy leaves WTF untouched and reports 0 |
| App.BackupApp.ReplaceWtfAndClean | WowAddonSync.py:964-974 | WTF replaced, then the unpacking directory removed, with 95 and 100, or 0 after a failed copy |
| App.RestoredTrees | WowAddonSync.py:960-972 | after a complete restore, the live Interface and WTF hold exactly the archive's two trees, and the unpacking directory is gone |
| App.LiveApartFromRestoreDir | WowAddonSync.py:925-952 | the live directories and the unpacked trees never nest, unless the version is named like the unpacking directory |
| App.FailedInterfaceCopy | WowAddonSync.py:960-966 | when the Interface copy fails, the live Interface is gone and WTF is as it was |
| Service.ConfigDefaults | old/service.py:68-76 | a missing key turns the scheduler off; missing interval and unit mean every 24 hours |
| Service.CalculateNextBackupTime | old/service.py:78-87 | now plus 60, 3600 or 86400 s per unit; any unit but "minutes" and "hours" counts as days; no time for an interval `timedelta` refuses |
| Service.FilledFacts | old/service.py:99-103 | filling in the temporary base touches only that key, leaves it truthy, is done once for all, and changes no setting the backup reads |
| Service.FilledDelivers | old/service.py:100-103 | filling in the temporary base changes none of the keys a delivery reads |
| Service.BackupService.LoadConfig | old/service.py:53-66 | True exactly when the file exists and parses; the configuration replaced then, unchanged otherwise |
| Service.BackupService.ValidatePaths | old/service.py:89-120 | a falsy temporary base becomes the default and is written back; Interface, WTF and the temporary base are checked in order; nothing is made unless all pass |
| Service.BackupService.CopyWowDirectories | old/service.py:157-171 | both keys needed; Interface then WTF copied, the first failure stopping it, with the state it leaves |
| Service.BackupService.CompressBackup | old/service.py:183-201 | the same success condition and archive as the GUI's compression step |
| Service.BackupService.RotateBackups | old/service.py:229-293 | with a textual destination, only the backups to remove are deleted, newest first, all of them unless `os.remove` refuses one (then it stopped at the newest one left), none that was refused, and nothing else changes; without one, nothing happens |
| Service.BackupService.FinalizeBackup | old/service.py:203-227 | makes the destination, moves the archive, removes the staging directory and rotates as `rotate_backups` does (only backups it should delete, newest first, all unless one is refused, none that was refused); fails when a step does or the new backup is gone; nothing changes without a textual destination or when it cannot be made, and only the destination is made when the archive cannot be moved |
| Service.BackupService.ClearAndRotate | old/service.py:215-223 | the staging directory removed, then rotation of the destination as `rotate_backups` does it (only backups it should delete, newest first, all unless one is refused, none that was refused), and success exactly when the new backup is still there for `getsize` |
| Service.BackupService.PerformBackup | old/service.py:122-155 | unreadable settings or invalid paths change nothing on disk; True only when every step went through, with the staged trees' archive at the destination; every step going through gives True for a backup dated on or after the cutoff. The file system afterwards is the GUI's `AfterBackup`, with the steps met as the service meets them (`ServiceEnv`: a missing directory key fails the copy, a non-text destination the finalize), so a failure leaves what the steps before it made, and the rotation's deletions are bounded by `BackupRotated` (`PerformedBackup`) |
| Service.NothingPerformed | old/service.py:127-129 | with unreadable settings or invalid paths, a `perform_backup` that returns False and changes nothing is what `PerformedBackup` allows |
| Service.BackupService.DeliverBackup | old/service.py:135-151 | after validation: a success means everything a delivery needs held and the archive is at the destination, and conversely for a backup dated on or after the cutoff; the file system is the GUI's `AfterDelivery` under `ServiceEnv` (`Delivered`) |
| Service.BackupService.MoveIntoPlace | old/service.py:203-227 | `finalize_backup` as `perform_backup` meets it: the file system is the GUI's `AfterFinalize` under `ServiceEnv`, with deletions bounded as `FinalizeRotated` says; success only when the archive was moved, then holding it unchanged at the destination, and always then for a backup dated on or after the cutoff |
| Service.BackupService.StageAndCompress | old/service.py:135-145 | succeeds exactly when the staging directory, both keys, both copies and (when anything was collected) the archive go through, leaving the staged trees and their archive; whatever the outcome the file system is the GUI's `AfterStaging` under `ServiceEnv`, so a failed step leaves what the steps before it made |
| Service.BackupService.Tick | old/service.py:301-329 | reload, then the scheduling step under the loaded configuration; a pass that fires runs one `perform_backup` under it, as `PerformedBackup` says (`PassTaken`) |
| Service.BackupService.Pass | old/service.py:306-326 | disabled: the time is forgotten; enabled: the service's scheduling step, a backup only when due; a pass without a backup changes only the time; a pass that fires runs one `perform_backup`, stamped `t`, whose outcome, archive and file system are as `PerformedBackup` says (`PassTaken`) |
| Service.BackupService.Fire | old/service.py:316-324 | a pass that has reached its time: one backup as `PerformedBackup` says; then the next time is one interval after its end, or five minutes after the pass's clock when it failed (kept as found when the interval is refused), all as `PassTaken` describes a firing pass |
| Service.FiredPass | old/service.py:310-324 | a pass that fires at the time it found, or at the one computed at `setClock`, and reschedules after the backup, takes the service's scheduling step (`PassScheduled`) |
| Service.FirstPassWaits | old/service.py:310-316 | with a positive interval, the pass that first sets the time runs no backup and schedules one interval after the clock it read |

## Left out

- The tkinter interface, message boxes, the tray icon and launching the service: these are UI and process plumbing.
- Threads and thread pools: the per-file loops are sequential, in the order the work is submitted. Completion order, locks and the log-tail monitor are not modelled.
- robocopy, `cmd /c rmdir` and `shutil`: they are abstract tree operations. A copy either mirrors the whole tree or fails and changes nothing; a partly finished copy is not modelled. Removing a tree always succeeds.
- The ZIP/DEFLATE encoding, `testzip`'s checksum computation and compressed sizes: an archive is its members, and each file entry carries an `intact` flag.
- ZIP entry timestamps in `list_archive_contents`: not modelled.
- Floating point:
  - the ETA text;
  - compression ratios and megabyte statistics;
  - the GUI restore's rescaling of extraction progress into 20..70, so `App.BackupApp.PerformRestore` records only the values it reports itself;
  - floats as scheduler intervals.
- The two progress formulas `int((c/t)*k)` are taken as the exact floor `c*k/t`. Float rounding is not modelled.
- Logging and log files: only the rule that cleans a message is modelled.
- Python file-name handling:
  - a setting is one opaque path component, so separators inside it are not split;
  - there is no case folding and no name sanitisation.
- `strptime` leniency (single-digit fields, spaces): only the exact shape `strftime` writes is parsed. Times run over years 1 to 9999 in whole seconds.
- The cutoff `now - 30 days`: taken as an input. Calendar arithmetic and `timedelta` overflow are not modelled.
- JSON parsing: `load_config` takes the parsed value or a parse failure. A top-level value that is not an object is not modelled.
- Configuration values of unexpected types: floats, lists and objects are reduced to their truth value. A non-text temporary base or destination makes the step that uses it fail.
- `Service.BackupService.CompressBackup`: the service passes no progress callback, so the compressor's progress values are dropped.
- `Service.BackupService.Tick`: covers one pass only. The loop, `sleep(60)`, `KeyboardInterrupt` and `main`'s argument handling are left out.
- `Scheduling.SchedulerLoop`: covers a finite run of passes. The endless loop, its sleep and the status text are left out.
- `Compression.CompressionManager.ListArchiveContents`: records come out in no particular order. The model promises each entry once, not `infolist`'s order.
- `Compression.CompressionManager.ExtractMembers`: the extracted tree does not depend on the order of the entries. An archive with a file entry lying above another entry gets both in the model; on a real disk one of the two writes would fail.
- Retention.BackupsIn, Retention.CollectBackups, Retention.RotateBackups and Retention.BackupsAreDistinct: use the corrected stem (see Findings). As written, any name with `.zip` inside, such as `2024.zip0101_120000.zip`, also counts as a backup, and two names can then share a time; `BackupNames.ForeignNameParsedAsWritten` shows this.
- Layout.LayoutDisjoint and App.StagedCopies: a setting is one opaque component, so a temporary base that names a folder inside the WoW folder is not modelled. `App.StagedCopies` holds whatever the settings are; `Layout.LayoutDisjoint` says when a staged half and a live directory coincide.
- Service.CalculateNextBackupTime: a float interval is treated as refused, although `timedelta` accepts it; `timedelta` overflow on a huge interval is treated as accepted.
- Compression.CompressionManager.ExtractFile and App.BackupApp.PerformRestore: an entry that fails its checksum leaves a fully written but corrupt file on disk, since `zipfile` checks the CRC only after writing. The model writes no file for it; its folder is still made.
- Compression.CompressionManager.ZipfileCompression: a failure when closing the archive or when reading its size with `os.path.getsize` (old/compression.py:280-339) is not modelled. Only an archive that cannot be created fails the compression.
- Compression.CompressionManager.CompressionLevel: the level changes only the encoded bytes, which the model does not represent, so the archive written does not depend on it.
- `App.RestoredTrees`: requires that the WoW version is not named like the unpacking directory inside the same base. In that configuration the live directories overlap the unpacked tree.

## Findings

| source | as written | input that shows it | evidently intended | confidence | as-written member | corrected member |
|---|---|---|---|---|---|---|
| WowAddonSync.py:820 | the stem of a backup name is `f.replace('.zip', '')`, which deletes every `.zip` in the name, not only the last (old/service.py:244 repeats this) | a file `2024.zip0101_120000.zip` in the backup folder is taken for a backup of 2024-01-01 12:00:00 and can be deleted by rotation | strip only the trailing `.zip`, so only names the backup step writes count as backups | not executed | BackupNames.ForeignNameParsedAsWritten | BackupNames.ArchiveNameDeterminedByTime |
