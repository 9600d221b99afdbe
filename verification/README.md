# A verified model of the font installation service

OpenHarmony's font manager installs fonts for a user, or for one app or session of a user, keeps a
record list per user in a JSON file beside the copied fonts, unloads itself when idle, and moves
fonts from a shared directory to every user. This project models that behaviour in Dafny and proves
what the operations keep, alone, over whole runs, and interleaved.

`dafny verify dfyconfig.toml` checks everything.

## How the model is built

- **Paths and copies.** `Paths` models the path strings, the two path resolvers and their lexical
  meaning; `FileCopy` the `sendfile` loop against a kernel that may cut transfers short, interrupt or
  fail.
- **Records, config, store.** `RecordStore` models the elements of `fontlist` and the scans over them.
  `FontStore` says, as functions of files, configs, request and faults, what each operation does.
  `FontConfigs` and `FontManagers` hold the classes that do it step by step on a `Disk`; each method
  is proved to have exactly the effect of its function. Every input/output step that the source
  checks can fail: the faults are a parameter of the operation.
- **What the store keeps.** `StoreInvariants`, `InstallTheorems`, `UninstallTheorems` and `InstallCodes`
  prove the single operations under every fault; `StoreRuns`, `FileRuns`, `ScopeRuns`, `OwnerRuns`, `LiveRuns` and
  `VersionRuns` prove runs of serialised operations; `InstallCap` interleaves the config steps of concurrent installs.
- **The service.** `ClientRegistry` is the registry of observers; `ServiceRuns`, `StartCleanup` and
  `FontManagerServers` join it with the store and with the cleanup tasks of a start; `UnloadProtocol`
  interleaves calls, client deaths, migration tasks and unload tasks, and `UnloadProgress` proves what
  that protocol gets done.
- **Migration.** `Migration`, `MigrationManager` and `MigrationTheorems` cover the files, with the faults
  of each copy numbered by file and user, `MigrationEvents` the two threads and the events they report,
  `Progress` the percentage arithmetic.

## Assumptions

- The destination name of an install (time tag, thread tag, file name) is new; `Fresh` says so, and
  `InstallTheorems.NewNameIsNeeded` shows what a reused name does.
- The url of a scope install is not empty, as the client library supplies it
  (`frameworks/fontmgr/src/font_manager_client.cpp:247`).
- A config's version is absent, 1 or "7.0" where runs from an older config are considered.
- A token always maps to the same user.
- A failed config write leaves the old content.
- The record update at the end of a migration, which uses a `FontConfig` with a lock of its own
  (`frameworks/fontmgr/src/data_migration_manager.cpp:136`), is not interleaved with installs.
- An unload task whose posting failed is not posted again: `postFailed` marks this until the next activity.
- A run is orderly (`FileRuns.Orderly`) when no file removal fails, no config write of an uninstall or a
  cleanup fails, and no source name has a backslash; only `FileRuns.FilesMatchRecords` asks for it.
- The user list of a start or a migration holds every user once, and a migration's listing every file.
- The install limit parameter does not change during a run, and the doubles of the progress test are
  exact rationals.

## What the proofs found

- A font whose source file name has a backslash installs successfully and can never be uninstalled:
  `ValidateAndResolveRealPath` refuses its path (`UninstallTheorems.InstallThenUninstall`). A scope
  font of that kind loses its record on uninstall but keeps its file
  (`UninstallTheorems.UninstallScopeExact`) until its directory is removed.
- A config whose version is anything but absent, 1 or "7.0" never reaches 7.0; each update appends
  another version key and rereads all names (`RecordStore.RepeatedUpgrades`).
- Two listed fonts with equal base names, or a user's own font of that name, cost the migration a
  font: its source is removed although no user got its content, unless the contents agree
  (`MigrationTheorems.ContentSurvives`).
- The unload can be attempted while a call is inside: exactly if the call was counted after the task's
  first check, the read of the count (`UnloadProtocol.UnloadMeetsExactly`, `UnloadMeetsACall`).
- A failed install can leave a complete copy without a record, when neither the config write nor the
  removal of the copy succeeds (`InstallTheorems.InstallFontExact`, `StrandedCopyHappens`).
- A cleanup ignores failing config writes, so a leaving client can leave records behind that belong to
  nobody (`ServiceRuns.ServeKeepsInv`, `FailedCleanupHappens`).
- A scope uninstall that removes the file and cannot write leaves a stale record; a later user-level
  install of a font with a common name drops it silently (`LiveRuns.HalfRemovalLosesAnswer`).
- A client that registers again between its erasure and the cleanup loses what it installs in between
  (`ServiceRuns.LateCleanupTakesNewFont`).
- Concurrent scope installs can pass the limit and record one url several times; the exact bounds
  are proved and met (`InstallCap.BoundsAreMet`).
- A migration never reports 100 percent; one of more than 100 files skips exactly the
  percentages whose position falls halfway between two files (`Progress.WhichHundredthsTrigger`).
- A per-record cleanup can remove another app's record in place of its own, when that record has the
  same url and stands before it; `RecordStore.CleanupExact` gives the exact condition, and serialised
  installs rule the case out.
- A client that dies after its scope install passed the registration check, and before the install
  reaches the store, leaves an app-scope record that belongs to nobody
  (`ServiceRuns.DeathInsideAnInstall`). Its owner can still uninstall it, since uninstalling checks no
  registration; otherwise it goes when the token registers again and leaves, or at the next start.
- A config whose `fontlist` is not an array loses scope fonts: the install answers ERR_OK, the copy stays,
  and no record can be found (`InstallCodes.NoListLosesScopeFont`).

## Model

| member | source | states |
|---|---|---|
| Paths.MakeAppIdentifierInjective | frameworks/fontmgr/src/font_manager_utils.cpp:493-499 | The identifier of (scope, token) equals that of another pair exactly when both components agree; it is always a plain directory name other than `temp` |
| Paths.InstallDirsApart | frameworks/fontmgr/src/font_manager.cpp:224-227 | The install directory of one user is a prefix of another's only if the users are the same |
| Paths.UserFontPathResolves | frameworks/fontmgr/src/font_manager.cpp:178-215 | The path written for a user-level font leads back to the copied file; the validating resolver refuses it exactly when the name has a backslash |
| Paths.ScopeFontPathResolves | frameworks/fontmgr/src/font_manager.cpp:178-215 | The same for a scope font, whose file lies in its own scope directory |
| Paths.ConfigResolverDropsScopeDir | frameworks/fontmgr/src/font_config.cpp:65-70 | The second resolver, used by the version upgrade, agrees with the first on user-level paths and never finds a scope font's file |
| Paths.ResolvedIsInside | frameworks/fontmgr/src/font_manager.cpp:188-215 | Whatever path a config holds, what the validating resolver returns is an entry below the user's install directory, with every ".." worked off |
| Paths.ParentIsRefused | frameworks/fontmgr/src/font_manager.cpp:188-215 | A path that leads up out of that directory is refused |
| Paths.OtherPathsByFileName | frameworks/fontmgr/src/font_manager.cpp:178-186 | A path outside the public prefix stands for the file of its name in the install directory |
| FileCopy.CopyFileByFd | frameworks/fontmgr/src/font_manager_utils.cpp:330-373 | True only if the target equals the source; on failure the target is a proper prefix; exact for every pattern of short transfers, interruptions and failures |
| FileCopy.InterruptsAreInvisible | frameworks/fontmgr/src/font_manager_utils.cpp:345-365 | Interrupted calls change nothing about what is copied |
| FileCopy.PatientCopySucceeds | frameworks/fontmgr/src/font_manager_utils.cpp:330-373 | Enough calls that each transfer something always complete the copy |
| FileCopy.CopySucceedsExactly | frameworks/fontmgr/src/font_manager_utils.cpp:330-373 | A copy succeeds exactly when the bytes the kernel takes before it fails or ends early reach the size of the font; else exactly those bytes have arrived |
| RecordStore.RecordRoundTrip | frameworks/fontmgr/src/font_config.cpp:397-464 | A record read back after being written is the same record exactly when its scope is at least -1; a plain user-level record is written the same by both writers |
| RecordStore.CleanupExact | frameworks/fontmgr/src/font_config.cpp:494-550 | Deleting by url, one snapshot record after another, is the order-preserving filter exactly when every selected record has a url and no unselected record with that url stands before it |
| RecordStore.CleanupFilters | frameworks/fontmgr/src/font_config.cpp:494-519 | One direction of the above, from any write number |
| RecordStore.CleanupFiltersOnlyIf | frameworks/fontmgr/src/font_config.cpp:494-519 | The other direction |
| RecordStore.UserCleanupComplete | frameworks/fontmgr/src/font_manager.cpp:409-436 | A user's cleanup leaves no scope record even when urls repeat, and keeps every other record in order |
| RecordStore.CleanupLeavesSurvivors | frameworks/fontmgr/src/font_config.cpp:494-519 | When each selected record has a url of its own, deleting them one by one leaves, in order, what was not selected and the j-th selected record exactly if its j-th write fails |
| RecordStore.UpgradeExact | frameworks/fontmgr/src/font_config.cpp:686-726 | The upgrade keeps record count, order and paths, changes no config that holds scope records, and reaches 7.0, where it is idempotent, exactly from the versions absent, 1 and "7.0" |
| RecordStore.UpgradeVersionsExact | frameworks/fontmgr/src/font_config.cpp:695-719 | One update reaches "7.0", and a second changes nothing, exactly from the versions absent, 1 and "7.0"; from any other the key is appended behind the old one |
| RecordStore.UpgradeRereads | frameworks/fontmgr/src/font_config.cpp:72-97 | From a version that is not current, the upgrade gives each record with a user-level path exactly the names now read from that file, none if it is gone, and leaves a record without a path alone; from a current version it changes nothing |
| RecordStore.RepeatedUpgrades | frameworks/fontmgr/src/font_config.cpp:686-726 | After n updates an unknown version still stands first, with n keys appended behind it; from a known version only the first update does anything |
| RecordStore.RefreshedNames | frameworks/fontmgr/src/font_config.cpp:72-97 | A user-level record gets the names in its own file; a scope record would get those of a user-level file of the same name |
| FontConfigs.FontConfig.InsertFontRecordIfUnderLimit | frameworks/fontmgr/src/font_config.cpp:137-182 | Code and new config are those of the specification: a present path is accepted silently, a full list refused, else one record appended |
| FontConfigs.FontConfig.DeleteFontRecord | frameworks/fontmgr/src/font_config.cpp:184-210 | Removes the first record with the path, or fails and changes nothing |
| FontConfigs.FontConfig.DeleteScopeFontRecordByUrl | frameworks/fontmgr/src/font_config.cpp:494-519 | Removes the first record with the url, or fails and changes nothing |
| FontConfigs.FontConfig.DeleteScopeFontRecordByAppId | frameworks/fontmgr/src/font_config.cpp:521-550 | The backward in-place loop leaves exactly the order-preserving filter; false if nothing matched |
| FontConfigs.FontConfig.InsertScopeFontRecord | frameworks/fontmgr/src/font_config.cpp:466-492 | Appends the record to an array or an object, and reports success with no visible change on a scalar |
| FontConfigs.FontConfig.GetFontFileByName | frameworks/fontmgr/src/font_config.cpp:225-265 | The path of the first record that carries the name, or empty |
| FontConfigs.FontConfig.GetFontRecordByName | frameworks/fontmgr/src/font_config.cpp:578-603 | The first record that carries the name |
| FontConfigs.FontConfig.GetFontRecordByUrl | frameworks/fontmgr/src/font_config.cpp:552-576 | The first record with the url, the one the deletion would choose |
| FontConfigs.FontConfig.GetRecords | frameworks/fontmgr/src/font_config.cpp:611-684 | The three listings: exactly the matching records, in order |
| FontConfigs.FontConfig.GetInstalledFontsNum | frameworks/fontmgr/src/font_config.cpp:212-223 | The number of records, 0 if the list is missing or not an array |
| FontConfigs.FontConfig.CheckAndUpdateFontRecord | frameworks/fontmgr/src/font_config.cpp:686-726 | The loop over the records and the version rewrite have exactly the effect of the upgrade function; the code is that of the write |
| FontManagers.FontManager.InstallFont | frameworks/fontmgr/src/font_manager.cpp:55-103 | Step by step on the disk, result and state are those of `FontStore.InstallFont`, for every fault |
| FontManagers.FontManager.DropStaleRecords | frameworks/fontmgr/src/font_manager.cpp:66-78 | The stale-record loop, likewise |
| FontManagers.FontManager.CopyForInstall | frameworks/fontmgr/src/font_manager.cpp:118-136 | Copy, rename, and removal of the temp file on failure, likewise |
| FontManagers.FontManager.UninstallFont | frameworks/fontmgr/src/font_manager.cpp:138-176 | Likewise for the user-level uninstall |
| FontManagers.FontManager.ValidateScopeFontForInstall | frameworks/fontmgr/src/font_manager.cpp:260-285 | The first failing check decides the code; the names are those of the font |
| FontManagers.FontManager.InstallScopeFont | frameworks/fontmgr/src/font_manager.cpp:229-258 | Likewise for the scope install |
| FontManagers.FontManager.CopyAndInsertScopeFont | frameworks/fontmgr/src/font_manager.cpp:287-313 | Likewise for its second half, with the copy taken back when the insert fails |
| FontManagers.FontManager.UninstallScopeFont | frameworks/fontmgr/src/font_manager.cpp:315-355 | Likewise for the scope uninstall |
| FontManagers.FontManager.GetFontScope | frameworks/fontmgr/src/font_manager.cpp:357-376 | Likewise for the scope query |
| FontManagers.FontManager.CleanupAppScopeFonts | frameworks/fontmgr/src/font_manager.cpp:378-407 | The loop over a snapshot, then the directory, likewise |
| FontManagers.FontManager.CleanupScopeFontsByUser | frameworks/fontmgr/src/font_manager.cpp:409-436 | Likewise for all scope fonts of a user |
| FontManagers.FontManager.CleanupAppScopeFontsByUser | frameworks/fontmgr/src/font_manager.cpp:438-465 | Likewise for all app-scope fonts of a user |
| InstallTheorems.DropStaleExact | frameworks/fontmgr/src/font_manager.cpp:66-78 | The loop drops the records of the names before the first that ends it, a name whose record has its file or cannot be deleted; the code says which, and disjoint names are what makes this hold |
| InstallTheorems.InstallFontExact | frameworks/fontmgr/src/font_manager.cpp:55-103 | All or nothing under every fault: success exactly when the stated guard holds, with exactly one new record, which carries exactly the names the font itself gives, and its complete copy; on failure no new record, and outside temp/ exactly a stranded copy if the record could not be written and the copy not removed, else nothing |
| InstallTheorems.PlaceFontExact | frameworks/fontmgr/src/font_manager.cpp:85-97 | The part from the copy on: success exactly when copy and write go through; on error the complete copy stays exactly if it arrived and its removal fails, else only temp/ may differ |
| InstallTheorems.NewNameIsNeeded | frameworks/fontmgr/src/font_config.cpp:151-159 | A reused destination name still reports success and replaces the file, and a record is added exactly when none has that path |
| InstallTheorems.StrandedCopyHappens | frameworks/fontmgr/src/font_manager.cpp:93-98 | An input whose failed install leaves a complete copy without a record |
| InstallTheorems.InstallDropsStale | frameworks/fontmgr/src/font_manager.cpp:66-78 | Whatever becomes of an install, only records that carry one of its names go, and only ones whose file is missing |
| UninstallTheorems.UninstallFontExact | frameworks/fontmgr/src/font_manager.cpp:138-176 | Which code, which record and which file, for every name and fault |
| UninstallTheorems.InstallThenUninstall | frameworks/fontmgr/src/font_manager.cpp:55-215 | Uninstalling by any non-empty name of the font restores the files and the records left after stale removal exactly when the source file name has no backslash; with one, nothing can be uninstalled |
| UninstallTheorems.ValidateScopeExact | frameworks/fontmgr/src/font_manager.cpp:260-285 | The checks pass exactly when url and names are new, the list is below the limit and the font has names |
| UninstallTheorems.InstallScopeExact | frameworks/fontmgr/src/font_manager.cpp:229-313 | All or nothing for scope installs under every fault, with the exact success condition, the font's own names in the record, and the exact case of a stranded copy |
| InstallCodes.InstallFontCode | frameworks/fontmgr/src/font_manager.cpp:55-103 | Which code answers a user-level install, guard by guard, in terms of the font's own names: too large or nameless, a name in use, list full, copy, write |
| InstallCodes.NamedRecordRefuses | frameworks/fontmgr/src/font_manager.cpp:66-78 | A record that has its file and any one of the font's names refuses the install |
| InstallCodes.InstallScopeCode | frameworks/fontmgr/src/font_manager.cpp:229-313 | Which code answers a scope install, guard by guard |
| InstallCodes.ValidateScopeCode | frameworks/fontmgr/src/font_manager.cpp:260-285 | Which code the checks answer: url in use, list full, too large or nameless, any name in use |
| InstallCodes.InsertUnderLimitCode | frameworks/fontmgr/src/font_config.cpp:137-182 | For any config, list, limit and write: which code the insertion answers, and that it changes nothing but appending the record |
| InstallCodes.DeleteRecordExact | frameworks/fontmgr/src/font_config.cpp:184-210 | A deletion succeeds exactly when a record matches and the write holds; it takes out the first match only, and a failure changes nothing |
| InstallCodes.NoListNoUserInstall | frameworks/fontmgr/src/font_manager.cpp:55-103 | A config that has no array of records takes no user-level font: which code, and that no config changes |
| InstallCodes.NoListLosesScopeFont | frameworks/fontmgr/src/font_config.cpp:466-492 | With a list that is no array a scope install still answers ERR_OK, exactly under the stated guard; the copy is there and no record can be found |
| InstallCodes.NoUpdateNoScopeInstall | frameworks/fontmgr/src/font_manager.cpp:229-258 | A config that cannot be read, or needs an update it cannot write, refuses a scope font and nothing changes |
| UninstallTheorems.UninstallScopeExact | frameworks/fontmgr/src/font_manager.cpp:315-355 | Only the owner (bundle, scope, token) removes a scope font, and only its record and file go |
| UninstallTheorems.CleanupWorldExact | frameworks/fontmgr/src/font_manager.cpp:378-465 | Under every fault a cleanup leaves, in order, what it did not select and what it could not write out, and removes exactly the files it resolves and can remove |
| UninstallTheorems.CleanupCompletesExactly | frameworks/fontmgr/src/font_manager.cpp:378-465 | A cleanup leaves no selected record exactly when all its config writes succeed, and then it is the plain filter |
| UninstallTheorems.CleanupMatchesBulkDelete | frameworks/fontmgr/src/font_manager.cpp:378-407 | Per-record cleanup of an app leaves the record sequence of the bulk deletion by identifier exactly when its config writes succeed |
| UninstallTheorems.DeleteByAppExact | frameworks/fontmgr/src/font_config.cpp:521-550 | The bulk deletion succeeds exactly when a record of the app is found and the write holds; else nothing changes, and no file or other user is touched |
| UninstallTheorems.AppCleanupExact | frameworks/fontmgr/src/font_manager.cpp:378-407 | If its directory can be removed, the cleanup of an app removes exactly that directory, however many single removals failed before; if not, exactly the files it could remove; and it leaves the survivors of its config writes |
| StoreRuns.OneUserPerCall | frameworks/fontmgr/src/font_manager.cpp:55-465 | No operation changes another user's config or a file outside its own user's install directory, whatever the configs hold |
| StoreRuns.ApplyKeepsConfigInv | frameworks/fontmgr/src/font_manager.cpp:55-465 | Each operation, under every fault, keeps paths distinct and non-empty, names disjoint, urls distinct, places below the owner's directory, and the cap |
| StoreRuns.RunKeepsInv | frameworks/fontmgr/src/font_manager.cpp:55-465 | The same over every run of serialised operations of all users |
| FileRuns.FilesMatchRecords | frameworks/fontmgr/src/font_manager.cpp:55-465 | Over every orderly run from an empty disk (no file removal fails, no config write of an uninstall or cleanup fails, no source name has a backslash) the stored files are exactly the files of the records |
| OwnerRuns.QueriesFollowExactly | frameworks/fontmgr/src/font_manager.cpp:229-465 | Under every fault: throughout a run the queries of all callers answer from the history of installs and removals exactly when no call trips its guard, an install whose stale loop reaches a scope record without a file or a cleanup that cannot write |
| OwnerRuns.CallFollowsExactly | frameworks/fontmgr/src/font_manager.cpp:55-465 | The same for a single call |
| OwnerRuns.FollowIsRepresent | frameworks/fontmgr/src/font_manager.cpp:357-376 | All queries answer as expected exactly when the records are those of the expected owners, which rests on identifiers being injective |
| LiveRuns.ScopeQueryFollowsHistory | frameworks/fontmgr/src/font_manager.cpp:229-376 | Over every run from an empty store in which uninstalls and cleanups of scope fonts can write the config, whatever else fails, a query answers a scope exactly for the owner of the latest effective install |
| LiveRuns.HalfRemovalLosesAnswer | frameworks/fontmgr/src/font_manager.cpp:66-78 | Without that: after a scope uninstall that removed the file and could not write, a user-level install of a font with a common name drops the record, and the owner is told there is none though no removal was reported done |
| LiveRuns.HalfRemovalInput | frameworks/fontmgr/src/font_manager.cpp:343-350 | An input of that kind |
| VersionRuns.ApplyKeepsScope | frameworks/fontmgr/src/font_manager.cpp:239-249 | No operation but a scope install adds a scope record or changes one |
| VersionRuns.RunKeepsVersionInv | frameworks/fontmgr/src/font_config.cpp:686-726 | Over every run, migration updates included, from configs of version absent, 1 or "7.0", scope records occur only in 7.0 configs, so the upgrade never rewrites one |
| VersionRuns.UpdateRereadsNames | frameworks/fontmgr/src/font_config.cpp:686-726 | An update answers ERR_OK exactly if the config is current or the write succeeds; only then, and only from another version, each user-level record gets the names now read from its file |
| ClientRegistry.FontClientRegistry.RegisterClient | frameworks/fontmgr/src/font_client_registry.cpp:44-83 | Code and both indexes are those of the specification, with the per-user cap checked before the observer |
| ClientRegistry.FontClientRegistry.UnregisterClient | frameworks/fontmgr/src/font_client_registry.cpp:85-111 | The client leaves both indexes, its app-scope fonts are cleaned up and the unload check runs, or nothing happens |
| ClientRegistry.FontClientRegistry.OnClientDied | frameworks/fontmgr/src/font_client_registry.cpp:125-145 | The same for a death |
| ClientRegistry.RegisterKeepsValid | frameworks/fontmgr/src/font_client_registry.cpp:44-83 | After any registration a token is in a user's set exactly when the client map says so, each set has at most 5 tokens |
| ClientRegistry.RegisterCode | frameworks/fontmgr/src/font_client_registry.cpp:44-83 | Which code answers a registration, by what is registered: a token twice, a user with five tokens, an observer that cannot be watched; only ERR_OK changes the registry |
| ClientRegistry.EraseKeepsValid | frameworks/fontmgr/src/font_client_registry.cpp:85-145 | The same after any removal |
| ClientRegistry.ClientCountIsSum | frameworks/fontmgr/src/font_client_registry.cpp:119-123 | The client count is the sum of the users' set sizes |
| ClientRegistry.RunBalances | frameworks/fontmgr/src/font_client_registry.cpp:44-145 | However unregister and death race, successful registrations minus effective removals of a token is 1 while it is registered and 0 otherwise |
| ServiceRuns.ServeKeepsInv | service/server/src/font_manager_server.cpp:405-451 | Under every fault a service request or client death keeps each app-scope record owned by a registered client exactly if it is no leaving whose cleanup cannot write |
| ServiceRuns.DeathInsideAnInstall | service/server/src/font_manager_server.cpp:434-450 | If the client dies between the gate and the store, the app-scope records stay owned exactly if the death's cleanup can write and the guard of the install fails |
| ServiceRuns.RemovalClears | frameworks/fontmgr/src/font_client_registry.cpp:85-145 | A leaving client takes all its app-scope records along exactly when its cleanup's config writes succeed |
| ServiceRuns.FailedCleanupHappens | frameworks/fontmgr/src/font_client_registry.cpp:125-145 | The failing input: a client registers, installs and dies, its cleanup cannot write, and its record stays with no owner |
| ServiceRuns.LateCleanupTakesNewFont | frameworks/fontmgr/src/font_client_registry.cpp:85-111 | A client that registers again and installs between its erasure and the cleanup loses the new font, although registered, exactly if the cleanup can write |
| ServiceRuns.GateExact | service/server/src/font_manager_server.cpp:426-451 | A scope install reaches the store exactly for a known user and bundle and a session scope, or an app scope whose caller is registered; an app-scope request of an unregistered caller is answered as such |
| StartCleanup.StartRecovers | service/server/src/font_manager_server.cpp:530-559 | Under every fault a start leaves each user the records it did not select and those it could not write out, in order, and no file in a directory it sweeps unless that directory cannot be deleted; every other file is untouched |
| StartCleanup.BootClearsScopes | service/server/src/font_manager_server.cpp:530-539 | After a boot no user has a scope record, session or app, exactly when that cleanup's writes hold, and the rest is kept in order |
| StartCleanup.StartKeepsOthers | service/server/src/font_manager_server.cpp:551-559 | An ordinary start keeps every session-scope and user-level record, in order |
| StartCleanup.StartKeepsFiles | service/server/src/font_manager_server.cpp:530-559 | Every record that start must not touch keeps its file |
| StartCleanup.NoScopeFileStays | frameworks/fontmgr/src/font_manager_utils.cpp:109-174 | No file stays in an app-scope directory, at a boot also in a session-scope or temp directory, unless that directory cannot be deleted |
| StartCleanup.LeavesNoAppExactly | service/server/src/font_manager_server.cpp:530-559 | A start leaves a user no app-scope record exactly when no config write for one fails |
| StartCleanup.AppRecordsBelongToClients | service/server/src/font_manager_server.cpp:231-241 | Throughout every run of requests and deaths after such a start, every app-scope record belongs to a client of that user registered at that moment, exactly when no config write of the start's cleanup fails for an app-scope record and no leaving client's cleanup fails to write |
| FontManagerServers.FontManagerServer.InstallScopeFontInner | service/server/src/font_manager_server.cpp:426-451 | The order of the checks decides the code, and state changes exactly as the request function says |
| FontManagerServers.FontManagerServer.CleanupAllScopeFontsOnBoot | service/server/src/font_manager_server.cpp:530-539 | The loops over users, temp directories and scope directories have exactly the effect of `StartCleanup.AfterStart`, which `BootClearsScopes` and `NoScopeFileStays` pin down |
| FontManagerServers.FontManagerServer.CleanupAppScopeFontsOnStart | service/server/src/font_manager_server.cpp:551-559 | The same for an ordinary start |
| FontManagerServers.FontManagerServer.CleanupUserScopeFonts | service/server/src/font_manager_server.cpp:541-549 | A negative user id changes nothing |
| FontManagerServers.FontManagerServer.CleanupScopeFontDirsOf | frameworks/fontmgr/src/font_manager_utils.cpp:109-138 | Listing, collecting and deleting one user's scope directories removes exactly the files below them |
| FontManagerServers.FontManagerServer.ClearAllTempFileDir | frameworks/fontmgr/src/font_manager_utils.cpp:74-84 | Removes exactly the files below the users' temp directories |
| UnloadProtocol.UnloadIsNeverLost | service/server/src/font_manager_server.cpp:174-207 | In every interleaving, when nothing is active and no thread is midway, an unload is queued, or since the last activity it was attempted or its posting failed |
| UnloadProtocol.EntryRemovesUnload | service/server/include/font_manager_server.h:85-89 | A call or a migration task that enters takes the queued unload away |
| UnloadProgress.CanUnload | service/server/src/font_manager_server.cpp:157-207 | From every reachable state without clients or failed postings, ending what is underway leads to the unload: no thread waits for another for ever |
| UnloadProgress.ThreadsEnd | service/server/src/font_manager_server.cpp:157-207 | Whatever the others do, a thread takes at most 14 steps to its end once nothing new begins |
| UnloadProgress.CanSettle | service/server/src/font_manager_server.cpp:157-207 | From every reachable state all threads can end |
| UnloadProgress.PosterSawIdle | service/server/src/font_manager_server.cpp:183-188 | Whoever queues an unload has, since it did anything else, read the count as zero, then the flag as clear, then the clients as gone |
| UnloadProgress.ClientKeepsService | service/server/src/font_manager_server.cpp:183-207 | While a client stays registered no unload is queued or attempted, whatever calls and migrations come and go |
| UnloadProgress.ServiceIsKept | service/server/include/font_manager_server.h:82-104 | Such a state is reached by a run from the start |
| UnloadProgress.ClientsFollowRun | frameworks/fontmgr/src/font_client_registry.cpp:44-145 | Over every run a token is registered exactly if the last action about it registered it |
| UnloadProgress.MarksAreRecent | service/server/src/font_manager_server.cpp:183-207 | An attempt or a failed posting counts until the next activity, and only a task past its three reads attempts an unload or queues one |
| UnloadProtocol.SingleMigration | service/server/src/font_manager_server.cpp:157-181 | The manager's body and tail are never entered twice at once nor skipped by a task that starts, and the flag is set exactly while one thread holds it or one task is queued |
| UnloadProtocol.UnloadMeetsExactly | service/server/src/font_manager_server.cpp:189-200 | When the unload is about to be attempted, the count is non-zero exactly if a call inside was counted after the task read the count, the flag set exactly if it was set after being read and not cleared since, and a client registered exactly if one joined after that read |
| UnloadProtocol.UnloadMeetsACall | service/server/src/font_manager_server.cpp:189-200 | It happens: a run from the start in which a call that entered after the first of the three reads is inside at the unload |
| UnloadProtocol.CallAfterTheCount | service/server/include/font_manager_server.h:85-89 | The same from every idle state with a queued unload task |
| UnloadProtocol.QuietUnloadHappens | service/server/src/font_manager_server.cpp:183-207 | An undisturbed queued task unloads an idle service |
| UnloadProtocol.CallsAreCounted | service/server/include/font_manager_server.h:85-98 | Over every run the calling count is exactly the number of calls inside |
| UnloadProtocol.RunKeepsInv | service/server/include/font_manager_server.h:82-104 | The invariant behind these results holds in every reachable state |
| MigrationManager.DataMigrationManager.CopyFileForDataMigration | frameworks/fontmgr/src/data_migration_manager.cpp:160-194 | ERR_OK exactly when the user has the file already or every step of the copy works; the exact code and files for each failing step; every state in between differs only in the temp file |
| MigrationManager.DataMigrationManager.StartOneFileCopyTask | frameworks/fontmgr/src/data_migration_manager.cpp:144-158 | The code is that of the first failing user, or of the removal of the source, which goes only after every user has the file; every intermediate state is at a recorded point |
| MigrationManager.DataMigrationManager.StartDataMigration | frameworks/fontmgr/src/data_migration_manager.cpp:115-130 | The code is that of the first failing step of all files (`MigrationSucceedsExactly`, `FirstFailureDecides`); success is the migration of every file; failure and every crash leave a state on the way |
| Migration.CrashStateIsSafe | frameworks/fontmgr/src/data_migration_manager.cpp:144-194 | In every crash state each source is present or every user has a file of its name, new files are complete copies and old files are kept |
| Migration.RerunCompletes | frameworks/fontmgr/src/data_migration_manager.cpp:115-194 | A rerun over what is left completes the work |
| Migration.FinalStateIsUnique | frameworks/fontmgr/src/data_migration_manager.cpp:115-194 | The final state is determined by what was migrated |
| MigrationTheorems.MigratesAll | frameworks/fontmgr/src/data_migration_manager.cpp:115-158 | An uninterrupted migration brings every source to every user and changes nothing else |
| MigrationTheorems.MigrationSucceedsExactly | frameworks/fontmgr/src/data_migration_manager.cpp:115-194 | A migration returns ERR_OK exactly when every copy that is needed works and every source can be removed |
| MigrationTheorems.FirstFailureDecides | frameworks/fontmgr/src/data_migration_manager.cpp:115-194 | Otherwise the code is that of the first step that fails, by file and then by user |
| MigrationTheorems.FaultlessMigration | frameworks/fontmgr/src/data_migration_manager.cpp:115-194 | Without a fault it returns ERR_OK, every listed font reaches every user under its own file name, a user's own file of that name is kept, and no source is left |
| MigrationTheorems.PassedIsCrashState | frameworks/fontmgr/src/data_migration_manager.cpp:115-194 | Every state the loops pass through is such a crash state |
| MigrationTheorems.MigrationIsCrashSafe | frameworks/fontmgr/src/data_migration_manager.cpp:144-194 | So every state the loops pass through is safe |
| MigrationTheorems.RerunReachesSameFiles | frameworks/fontmgr/src/data_migration_manager.cpp:115-194 | From any stopping point a rerun in any listing order ends with exactly the files of the uninterrupted run |
| MigrationTheorems.MigratedContent | frameworks/fontmgr/src/data_migration_manager.cpp:160-194 | With equal base names allowed: a user keeps his own file, or else gets the first listed source of that name |
| MigrationTheorems.ContentSurvives | frameworks/fontmgr/src/data_migration_manager.cpp:144-194 | Exactly when a font's content survives the migration; its source is gone either way |
| MigrationEvents.EventOrder | frameworks/fontmgr/src/data_migration_manager.cpp:58-80 | In every interleaving: the progress of a prefix of the files, then exactly one result, at most one heartbeat after it, no step left after the return |
| MigrationEvents.ResultIsOfTheSteps | frameworks/fontmgr/src/data_migration_manager.cpp:58-130 | Over every run, no step follows a code other than ERR_OK; the files reported then are those up to the one whose copy gave it; the result announced is the last code, and it is ERR_OK exactly when every step returned it and every file was copied |
| MigrationEvents.OneLateBeatHappens | frameworks/fontmgr/src/data_migration_manager.cpp:196-212 | The one late heartbeat does happen in some run |
| MigrationEvents.JoinEnds | frameworks/fontmgr/src/data_migration_manager.cpp:76-78 | The join always ends: every run from it is bounded by the steps the heartbeat thread needs to stop, some step is enabled until the return, and a run of that length has returned |
| MigrationEvents.HeartWaits | frameworks/fontmgr/src/data_migration_manager.cpp:202-207 | Whatever the migrating thread does, while the flag stays set no heartbeat follows another before 60 seconds |
| MigrationEvents.HeartBeatsAgain | frameworks/fontmgr/src/data_migration_manager.cpp:202-207 | After them it does |
| MigrationEvents.ProgressAscends | frameworks/fontmgr/src/data_migration_manager.cpp:115-122 | A listener sees at most 100 progress events with strictly increasing percentages from 0 to 99 |
| Progress.TriggerExact | frameworks/fontmgr/src/data_migration_manager.cpp:214-223 | With more than 100 files an index triggers exactly when it is strictly nearest to k hundredths of the total for a k in 0..99 |
| Progress.ReportsExact | frameworks/fontmgr/src/data_migration_manager.cpp:214-235 | It then reports that k, and no other index does |
| Progress.WhichHundredthsTrigger | frameworks/fontmgr/src/data_migration_manager.cpp:214-235 | A percentage is reported by some index exactly when that hundredth does not fall halfway between two indices |
| Progress.PercentagesIncrease | frameworks/fontmgr/src/data_migration_manager.cpp:225-235 | Reported percentages strictly increase within 0..99 and the 64-bit product does not overflow |
| Progress.PercentageIsNearest | frameworks/fontmgr/src/data_migration_manager.cpp:225-235 | The percentage is the share of files so far rounded to the nearest hundredth, for every number of files |
| Progress.EveryIndexOfFewTriggers | frameworks/fontmgr/src/data_migration_manager.cpp:214-218 | With at most 100 files every index triggers |
| Progress.AtMostHundredTriggers | frameworks/fontmgr/src/data_migration_manager.cpp:214-223 | There are at most 100 triggers, whatever the number of files |
| InstallCap.CapUnderConcurrency | frameworks/fontmgr/src/font_manager.cpp:79-92 | With at most T installs in flight, records plus scope installs past their count check never exceed max - 1 + T |
| InstallCap.UserInstallsKeepCap | frameworks/fontmgr/src/font_config.cpp:137-182 | User-level installs alone never pass the limit, however many run at once |
| InstallCap.UserInstallGetsIn | frameworks/fontmgr/src/font_manager.cpp:79-92 | From any state of an interleaving with room left, an undisturbed user-level install of a new path is recorded |
| InstallCap.UrlsUnderConcurrency | frameworks/fontmgr/src/font_manager.cpp:260-313 | No url is recorded more often than there are installs in flight, so one at a time keeps urls unique |
| InstallCap.NamesUnderConcurrency | frameworks/fontmgr/src/font_manager.cpp:274-281 | Scope installs alone record no name more often than there are installs in flight, so one at a time keeps names apart |
| InstallCap.BoundsAreMet | frameworks/fontmgr/src/font_manager.cpp:268-307 | Both bounds are met by a run: T installs of one url, each with a path of its own, all recorded, max - 1 + T records |

## Left out

- JSON text: the config is modelled as its list of version entries and its record list; parsing,
  printing, allocation failures and case-insensitive keys are not part of this model.
- Font name extraction: an arbitrary function from bytes to a list of names; it does not fail for
  reasons other than the content.
- The file system holds files only: directories exist while they hold a file, permissions and
  symbolic links do not occur, and `weakly_canonical` is read lexically.
- FontConfigs.FontConfig.GetRecords: one method for `GetFontRecordsByAppId`, `GetScopeFontRecords` and
  `GetAppScopeFontRecords`, which differ in the field they compare; likewise one
  `FontManagers.FontManager.CleanupRecords` for the loop the three cleanups share, and one
  `CleanupScopeFontDirs` for the two sweeps that differ in the prefixes.
- FontConfigs.FontConfig.GetInstalledFontsNum: stands for `GetTotalInstalledFontsNum` too, whose body
  is the same.
- InstallCap.CapUnderConcurrency: interleaves the config steps of installs with deletions and version
  updates; the file copies between them only appear as an install that gives up.
- StoreRuns.RunKeepsInv: is about serialised operations; what concurrency changes about the limit and
  the urls is in `InstallCap`, what a client's death or return does inside an install or a cleanup is in
  `ServiceRuns`, and other interleavings of whole operations are not modelled.
- MigrationEvents.EventOrder: `InitDataMigrationEnv` is a step that returns any code, and the record
  update and reports after the copies are one silent step.
- Migration: a public file named `temp` and sources outside the public directory are excluded by
  `GoodListing`; the listing itself is a parameter.
- UnloadProtocol: the ten-second delay is a nondeterministic step, and what the unload task deletes
  (temp directories and empty scope directories, `CleanupScopeFontDirs`) is not modelled.
- A start for a stopping user cleans that user only, so it is not among the starts of
  `StartCleanup.AppRecordsBelongToClients`; `ParseUserIdFromReason` is not part of this model.
- `InsertFontRecord`, `DeleteDir` without its own directory, and the remaining-time estimate of
  progress events are not modelled.
- Permission checks, account and token queries, system events, storage reports and logging are
  parameters or no-ops.
- The NAPI and ANI layers, the client library, the IPC stubs and the command-line tool are thin
  wrappers and are not part of this model.
