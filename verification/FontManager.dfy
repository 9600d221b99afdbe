/**
  FontManager: every operation steps through the files and one user's config file, and
  is proved to have exactly the effect and the result that FontStore gives it.
 */
module FontManagers {
  import opened Wrappers
  import opened Paths
  import opened FileCopy
  import opened RecordStore
  import opened FontStore
  import opened FontConfigs

  class FontManager {
    const disk: Disk
    const env: Env
    var configMap: map<int, FontConfig>

    constructor (disk: Disk, env: Env)
      ensures this.disk == disk && this.env == env && Valid()
    {
      this.disk, this.env, this.configMap := disk, env, map[];
    }

    ghost predicate Valid()
      reads this
    {
      forall u :: u in configMap ==> configMap[u].disk == disk && configMap[u].user == u
    }

    method SafeGetOrCreateConfig(userId: int) returns (config: FontConfig)
      requires Valid()
      modifies this`configMap
      ensures Valid()
      ensures config.disk == disk && config.user == userId
      ensures userId in old(configMap) ==> configMap == old(configMap) && config == configMap[userId]
    {
      if userId !in configMap {
        var created := new FontConfig(disk, userId);
        configMap := configMap[userId := created];
      }
      config := configMap[userId];
    }

    /** Create the directories and, if there is none, an empty 7.0 config file. */
    method CheckAndInitInstallPath(userId: int, io: Io) returns (ok: bool)
      modifies disk`configs
      ensures ok <==> InitDir !in io.failed
      ensures disk.State() == if ok then EnsureConfig(old(disk.State()), userId) else old(disk.State())
    {
      if InitDir in io.failed {
        return false;
      }
      if userId !in disk.configs || disk.configs[userId].NoFile? {
        disk.configs := disk.configs[userId := FRESH_CONFIG];
      }
      return true;
    }

    method CopyForInstall(dir: Path, name: string, source: Bytes, io: Io) returns (ok: bool)
      modifies disk`files
      ensures (ok, disk.files) == FontStore.CopyForInstall(old(disk.files), dir, name, source, io)
    {
      var tempPath, destPath := dir + [TEMP_DIR, name], dir + [name];
      ok := disk.CopyFile(source, tempPath, io);
      if !ok {
        return;
      }
      assert CopyContent(source, io.replies) == source;
      ok := disk.RenameFile(tempPath, destPath, Rename in io.failed);
      if !ok {
        var _ := disk.RemoveFile(tempPath, Remove(0) in io.failed);
      }
    }

    /** Drop the records that carry one of the names and whose file is gone. */
    method DropStaleRecords(config: FontConfig, names: seq<string>, io: Io) returns (ret: int)
      requires config.disk == disk
      modifies disk`configs
      ensures (ret, disk.State()) == DropStale(old(disk.State()), config.user, names, 0, io)
    {
      hide RealPath, FontFileByName, First, RemoveFirst;
      var k := 0;
      while k < |names|
        invariant 0 <= k <= |names|
        invariant disk.files == old(disk.files)
        invariant DropStale(old(disk.State()), config.user, names, 0, io)
                  == DropStale(disk.State(), config.user, names, k, io)
      {
        var findPath := config.GetFontFileByName(names[k]);
        if findPath != "" {
          if RealPath(config.user, findPath) in disk.files {
            return ERR_INSTALLED_ALRADY;
          }
          var deleted := config.DeleteFontRecord(findPath, Write(k) !in io.failed);
          if !deleted {
            return ERR_INSTALL_FAIL;
          }
        }
        k := k + 1;
      }
      return ERR_OK;
    }

    /** Copy the font into place and record it, or take the copy back. */
    method CopyAndInsertFont(config: FontConfig, names: seq<string>, name: string, content: Bytes, io: Io)
      returns (ret: int)
      requires config.disk == disk
      modifies disk
      ensures (ret, disk.State()) == PlaceFont(old(disk.State()), env, config.user, names, name, content, io)
    {
      ghost var w := disk.State();
      var copied := CopyForInstall(InstallDir(config.user), name, content, io);
      assert disk.State() == w.(files := disk.files);
      if !copied {
        return ERR_COPY_FAIL;
      }
      ret := config.InsertFontRecordIfUnderLimit(UserFontPath(name), names, GetMaxInstallNum(env),
                                                 Write(|names|) !in io.failed);
      if ret != ERR_OK {
        disk.DeleteDir(InstallDir(config.user) + [name], Remove(1) in io.failed);
      }
    }

    method InstallFont(src: Source, userId: int, stamp: Stamp, io: Io) returns (ret: int)
      requires Valid()
      modifies this`configMap, disk
      ensures Valid()
      ensures (ret, disk.State()) == FontStore.InstallFont(old(disk.State()), env, userId, src, stamp, io)
    {
      var initialised := CheckAndInitInstallPath(userId, io);
      if !initialised {
        return ERR_FILE_NOT_EXISTS;
      }
      var config := SafeGetOrCreateConfig(userId);
      var names := FullNamesByFd(env, src.content);
      if |names| == 0 {
        return ERR_FILE_VERIFY_FAIL;
      }
      ret := DropStaleRecords(config, names, io);
      if ret != ERR_OK {
        return;
      }
      var count := config.GetInstalledFontsNum();
      if count >= GetMaxInstallNum(env) {
        return ERR_MAX_FILE_COUNT;
      }
      ret := CopyAndInsertFont(config, names, DestName(stamp, src), src.content, io);
    }

    method UninstallFont(fontFullName: string, userId: int, io: Io) returns (ret: int)
      requires Valid()
      modifies this`configMap, disk
      ensures Valid()
      ensures (ret, disk.State()) == FontStore.UninstallFont(old(disk.State()), userId, fontFullName, io)
    {
      if fontFullName == "" {
        return ERR_UNINSTALL_FILE_NOT_EXISTS;
      }
      var config := SafeGetOrCreateConfig(userId);
      var record := config.GetFontRecordByName(fontFullName);
      if record.None? || record.value.fontPath == "" {
        return ERR_UNINSTALL_FILE_NOT_EXISTS;
      }
      if record.value.scope >= 0 {
        return ERR_UNINSTALL_FILE_NOT_EXISTS;
      }
      var path := record.value.fontPath;
      var realPath := Resolve(userId, path);
      if realPath.None? {
        return ERR_UNINSTALL_FILE_NOT_EXISTS;
      }
      assert realPath.value !in disk.files ==> WithoutFile(disk.files, realPath.value) == disk.files;
      if realPath.value in disk.files {
        var removed := disk.RemoveFile(realPath.value, Remove(0) in io.failed);
        if !removed {
          return ERR_UNINSTALL_REMOVE_FAIL;
        }
      }
      var deleted := config.DeleteFontRecord(path, Write(0) !in io.failed);
      return if deleted then ERR_OK else ERR_UNINSTALL_FAIL;
    }

    method ValidateScopeFontForInstall(config: FontConfig, srcPath: string, content: Bytes)
      returns (ret: int, fullNames: seq<string>)
      ensures ret == ValidateScope(config.disk.State(), env, config.user, srcPath, content)
      ensures ret == ERR_OK ==> fullNames == FullNamesByFd(env, content)
    {
      fullNames := [];
      var record := config.GetFontRecordByUrl(srcPath);
      if record.Some? {
        return ERR_INSTALLED_ALRADY, fullNames;
      }
      var count := config.GetInstalledFontsNum();
      if count >= GetMaxInstallNum(env) {
        return ERR_MAX_FILE_COUNT, fullNames;
      }
      fullNames := FullNamesByFd(env, content);
      if |fullNames| == 0 {
        return ERR_FILE_VERIFY_FAIL, fullNames;
      }
      ghost var items := Items(config.disk.State(), config.user);
      var k := 0;
      while k < |fullNames|
        invariant 0 <= k <= |fullNames|
        invariant forall j :: 0 <= j < k ==> First(items, ByName(fullNames[j])) == |items|
      {
        var existing := config.GetFontRecordByName(fullNames[k]);
        if existing.Some? {
          assert fullNames[k] in fullNames && First(items, ByName(fullNames[k])) < |items|;
          return ERR_INSTALLED_ALRADY, fullNames;
        }
        k := k + 1;
      }
      return ERR_OK, fullNames;
    }

    method InstallScopeFont(info: ScopeInstall, src: Source, userId: int, stamp: Stamp, io: Io) returns (ret: int)
      requires Valid()
      modifies this`configMap, disk
      ensures Valid()
      ensures (ret, disk.State()) == FontStore.InstallScopeFont(old(disk.State()), env, userId, info, src, stamp, io)
    {
      if info.scope != FONT_SCOPE_APP && info.scope != FONT_SCOPE_SESSION {
        return ERR_INVALID_PARAM;
      }
      var initialised := CheckAndInitInstallPath(userId, io);
      if !initialised {
        return ERR_SYSTEM_ERROR;
      }
      var config := SafeGetOrCreateConfig(userId);
      var updated := config.CheckAndUpdateFontRecord(env, Write(0) !in io.failed);
      if !updated {
        return ERR_SYSTEM_ERROR;
      }
      var fullNames;
      ret, fullNames := ValidateScopeFontForInstall(config, info.srcPath, src.content);
      if ret != ERR_OK {
        return;
      }
      ret := CopyAndInsertScopeFont(config, info, fullNames, src, stamp, io);
    }

    method CopyAndInsertScopeFont(config: FontConfig, info: ScopeInstall, fullNames: seq<string>, src: Source,
                                  stamp: Stamp, io: Io)
      returns (ret: int)
      requires config.disk == disk
      modifies disk
      ensures (ret, disk.State()) == PlaceScopeFont(old(disk.State()), config.user, info, fullNames,
                                                    DestName(stamp, src), src.content, io)
    {
      var appDir := InstallDir(config.user) + [info.appIdentifier];
      if InitScopeDir in io.failed {
        return ERR_SYSTEM_ERROR;
      }
      ghost var w := disk.State();
      var name := DestName(stamp, src);
      var copied := CopyForInstall(appDir, name, src.content, io);
      assert disk.State() == w.(files := disk.files);
      if !copied {
        return ERR_COPY_FAIL;
      }
      var inserted := config.InsertScopeFontRecord(ScopeRecord(info, fullNames, name), Write(1) !in io.failed);
      if !inserted {
        disk.DeleteDir(appDir + [name], Remove(1) in io.failed);
        return ERR_SYSTEM_ERROR;
      }
      return ERR_OK;
    }

    method UninstallScopeFont(srcPath: string, bundleName: string, tokenId: int, userId: int, io: Io)
      returns (ret: int)
      requires Valid()
      modifies this`configMap, disk
      ensures Valid()
      ensures (ret, disk.State())
              == FontStore.UninstallScopeFont(old(disk.State()), userId, srcPath, bundleName, tokenId, io)
    {
      if srcPath == "" {
        return ERR_SCOPE_FONT_NOT_FOUND;
      }
      var config := SafeGetOrCreateConfig(userId);
      var record := config.GetFontRecordByUrl(srcPath);
      if record.None? {
        return ERR_SCOPE_FONT_NOT_FOUND;
      }
      if record.value.bundleName != bundleName {
        return ERR_SCOPE_FONT_NOT_FOUND;
      }
      if record.value.appIdentifier != MakeAppIdentifier(record.value.scope, tokenId) {
        return ERR_SCOPE_FONT_NOT_FOUND;
      }
      var realPath := Resolve(userId, record.value.fontPath);
      assert realPath.Some? && realPath.value !in disk.files ==>
          WithoutFile(disk.files, realPath.value) == disk.files;
      if realPath.Some? && realPath.value in disk.files {
        var removed := disk.RemoveFile(realPath.value, Remove(0) in io.failed);
        if !removed {
          return ERR_UNINSTALL_REMOVE_FAIL;
        }
      }
      var deleted := config.DeleteScopeFontRecordByUrl(srcPath, Write(0) !in io.failed);
      return if deleted then ERR_OK else ERR_SYSTEM_ERROR;
    }

    method GetFontScope(srcPath: string, bundleName: string, tokenId: int, userId: int) returns (ret: int)
      requires Valid()
      modifies this`configMap
      ensures Valid()
      ensures ret == FontStore.GetFontScope(disk.State(), userId, srcPath, bundleName, tokenId)
    {
      var config := SafeGetOrCreateConfig(userId);
      var record := config.GetFontRecordByUrl(srcPath);
      if record.None? {
        return ERR_SCOPE_FONT_NOT_FOUND;
      }
      if record.value.bundleName != bundleName {
        return ERR_SCOPE_FONT_NOT_FOUND;
      }
      if record.value.appIdentifier != MakeAppIdentifier(record.value.scope, tokenId) {
        return ERR_SCOPE_FONT_NOT_FOUND;
      }
      return record.value.scope;
    }

    /** One turn of a cleanup loop: remove the file, then delete the record by url, ignoring failures. */
    method CleanupRecord(config: FontConfig, record: Record, k: nat, io: Io)
      requires config.disk == disk
      modifies disk
      ensures disk.State() == CleanupOne(old(disk.State()), config.user, record, k, io)
    {
      hide Resolve;
      var realPath := Resolve(config.user, record.fontPath);
      assert realPath.Some? && realPath.value !in disk.files ==>
          WithoutFile(disk.files, realPath.value) == disk.files;
      if realPath.Some? && realPath.value in disk.files {
        var _ := disk.RemoveFile(realPath.value, Remove(k) in io.failed);
      }
      var _ := config.DeleteScopeFontRecordByUrl(record.srcPath, Write(k) !in io.failed);
    }

    /** The loop the three cleanups share. */
    method CleanupRecords(key: Key, userId: int, io: Io) returns (count: nat)
      requires Valid()
      requires key.ByApp? || key.AnyScope? || key.AppScope?
      modifies this`configMap, disk
      ensures Valid()
      ensures disk.State() == Cleanup(old(disk.State()), userId, key, io)
      ensures count == |Select(Items(old(disk.State()), userId), key)|
    {
      hide CleanupOne, CleanupRest, Cleanup, Select, ParseScopeRecord, ConfigOf;
      var config := SafeGetOrCreateConfig(userId);
      var records := config.GetRecords(key);
      count := |records|;
      ghost var start := disk.State();
      ghost var chosen := Select(Items(start, userId), key);
      var k := 0;
      assert chosen[k..] == chosen;
      while k < |records|
        invariant Valid()
        invariant 0 <= k <= |records| == |chosen|
        invariant CleanupRest(disk.State(), userId, chosen[k..], k, io)
                  == CleanupRest(start, userId, chosen, 0, io)
      {
        ghost var rest := chosen[k..];
        assert rest[0] == chosen[k] && rest[1..] == chosen[k + 1..];
        CleanupRestStep(disk.State(), userId, rest, k, io);
        CleanupRecord(config, records[k], k, io);
        k := k + 1;
      }
      assert chosen[k..] == [];
      CleanupRestIsCleanup(start, userId, key, io);
      CleanupRestDone(disk.State(), userId, k, io);
    }

    method CleanupAppScopeFonts(appIdentifier: string, userId: int, io: Io) returns (ret: int)
      requires Valid()
      modifies this`configMap, disk
      ensures Valid()
      ensures ret == ERR_OK
      ensures disk.State() == FontStore.CleanupAppScopeFonts(old(disk.State()), userId, appIdentifier, io)
    {
      var count := CleanupRecords(ByApp(appIdentifier), userId, io);
      disk.DeleteDir(InstallDir(userId) + [appIdentifier], Remove(count) in io.failed);
      return ERR_OK;
    }

    method CleanupScopeFontsByUser(userId: int, io: Io) returns (ret: int)
      requires Valid()
      modifies this`configMap, disk
      ensures Valid()
      ensures ret == ERR_OK
      ensures disk.State() == Cleanup(old(disk.State()), userId, AnyScope, io)
    {
      var _ := CleanupRecords(AnyScope, userId, io);
      return ERR_OK;
    }

    method CleanupAppScopeFontsByUser(userId: int, io: Io) returns (ret: int)
      requires Valid()
      modifies this`configMap, disk
      ensures Valid()
      ensures ret == ERR_OK
      ensures disk.State() == Cleanup(old(disk.State()), userId, AppScope, io)
    {
      var _ := CleanupRecords(AppScope, userId, io);
      return ERR_OK;
    }
  }

  /** The state once the rest of a cleanup snapshot has been worked off. */
  ghost function CleanupRest(w: World, u: int, chosen: seq<Item>, k: nat, io: Io): World
  {
    var file := ConfigOf(w, u);
    var files := RemoveFiles(w.files, u, chosen, k, io);
    if !HasArray(file) then w.(files := files)
    else WithConfig(w.(files := files), u,
                    WithItems(file, RemoveEach(file.fonts.items, Urls(chosen), k, FailedWrites(io))))
  }

  lemma DeleteRecordItems(w: World, u: int, key: Key, writeOk: bool)
    ensures var file, next := ConfigOf(w, u), DeleteRecord(w, u, key, writeOk).1;
            next == if HasArray(file) && writeOk then WithConfig(w, u, WithItems(file, RemoveFirst(file.fonts.items, key)))
                    else w
  {
    var file := ConfigOf(w, u);
    if HasArray(file) {
      assert WithItems(file, file.fonts.items) == file;
      assert WithConfig(w, u, file) == w;
    }
  }

  ghost function CleanupOne(w: World, u: int, record: Record, k: nat, io: Io): World
  {
    var place := Resolve(u, record.fontPath);
    var w1 := if place.Some? && Remove(k) !in io.failed then w.(files := WithoutFile(w.files, place.value)) else w;
    DeleteRecord(w1, u, ByUrl(record.srcPath), Write(k) !in io.failed).1
  }

  lemma RemoveEachStep(items: seq<Item>, chosen: seq<Item>, k: nat, io: Io)
    requires chosen != []
    ensures RemoveEach(items, Urls(chosen), k, FailedWrites(io))
            == RemoveEach(if Write(k) in io.failed then items else RemoveFirst(items, ByUrl(UrlOf(chosen[0]))),
                          Urls(chosen[1..]), k + 1, FailedWrites(io))
  {
    hide RemoveFirst;
    var urls := Urls(chosen);
    assert urls[0] == UrlOf(chosen[0]) && urls[1..] == Urls(chosen[1..]);
    assert Write(k) in io.failed <==> k in FailedWrites(io);
  }

  lemma RemoveFilesStep(files: Files, u: int, chosen: seq<Item>, k: nat, io: Io)
    requires chosen != []
    ensures var place := Resolve(u, ParseScopeRecord(chosen[0]).fontPath);
            RemoveFiles(files, u, chosen, k, io)
            == RemoveFiles(if place.Some? && Remove(k) !in io.failed then WithoutFile(files, place.value) else files,
                           u, chosen[1..], k + 1, io)
  {
    hide Resolve;
  }

  lemma CleanupRestStep(w: World, u: int, chosen: seq<Item>, k: nat, io: Io)
    requires chosen != []
    ensures CleanupRest(CleanupOne(w, u, ParseScopeRecord(chosen[0]), k, io), u, chosen[1..], k + 1, io)
            == CleanupRest(w, u, chosen, k, io)
  {
    hide Resolve, RemoveFirst, Urls, FailedWrites, DeleteRecord, RemoveEach, RemoveFiles;
    var record := ParseScopeRecord(chosen[0]);
    var place := Resolve(u, record.fontPath);
    var files := if place.Some? && Remove(k) !in io.failed then WithoutFile(w.files, place.value) else w.files;
    var w1 := w.(files := files);
    var key := ByUrl(UrlOf(chosen[0]));
    DeleteRecordItems(w1, u, key, Write(k) !in io.failed);
    assert ConfigOf(w1, u) == ConfigOf(w, u);
    RemoveFilesStep(w.files, u, chosen, k, io);
    if HasArray(ConfigOf(w, u)) {
      RemoveEachStep(ConfigOf(w, u).fonts.items, chosen, k, io);
    }
  }

  lemma CleanupRestDone(w: World, u: int, k: nat, io: Io)
    ensures CleanupRest(w, u, [], k, io) == w
  {
    var file := ConfigOf(w, u);
    if HasArray(file) {
      assert WithItems(file, file.fonts.items) == file;
    }
  }

  lemma CleanupRestIsCleanup(w: World, u: int, key: Key, io: Io)
    ensures CleanupRest(w, u, Select(Items(w, u), key), 0, io) == Cleanup(w, u, key, io)
  {
  }
}
