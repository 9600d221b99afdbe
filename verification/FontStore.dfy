/**
  What the operations of FontManager do to the files and config files of all users,
  as functions of the state, the request, and the input/output faults that strike it.
 */
module FontStore {
  import opened Wrappers
  import opened Paths
  import opened FileCopy
  import opened RecordStore

  const ERR_OK := 0
  const ERR_INVALID_PARAM := 401
  const ERR_FILE_NOT_EXISTS := 31100101
  const ERR_FILE_VERIFY_FAIL := 31100102
  const ERR_COPY_FAIL := 31100103
  const ERR_INSTALLED_ALRADY := 31100104
  const ERR_MAX_FILE_COUNT := 31100105
  const ERR_INSTALL_FAIL := 31100106
  const ERR_UNINSTALL_FILE_NOT_EXISTS := 31100107
  const ERR_UNINSTALL_REMOVE_FAIL := 31100108
  const ERR_UNINSTALL_FAIL := 31100109
  const ERR_SYSTEM_ERROR := 31100110
  const ERR_SCOPE_FONT_NOT_FOUND := 31100112

  const DEFAULT_MAX_INSTALL_NUM := 200

  type Files = map<Path, Bytes>

  datatype World = World(files: Files, configs: map<int, ConfigFile>)

  /** The install limit parameter and the font parser. */
  datatype Env = Env(maxInstallParam: int, tool: FontTool)

  /** An input/output step that fails; Remove and Write are numbered within one call. */
  datatype Fault = InitDir | InitScopeDir | OpenTemp | Rename | Remove(k: nat) | Write(k: nat)

  datatype Io = Io(failed: set<Fault>, replies: seq<Reply>)

  /** A font offered for installation: the path behind its descriptor, and its bytes. */
  datatype Source = Source(path: string, content: Bytes)

  /** How the name of an installed file begins: with the time tag, or with '_' when there is none. */
  predicate IsStamped(name: string)
  {
    name != "" && (name[0] == '_' || '0' <= name[0] <= '9')
  }

  /** Time tag, '_' and thread tag of a copy. */
  type Stamp = s: string | IsStamped(s) && '/' !in s && '\\' !in s witness "_"

  function GetMaxInstallNum(env: Env): (max: int)
    ensures max >= DEFAULT_MAX_INSTALL_NUM && max >= env.maxInstallParam
    ensures max == DEFAULT_MAX_INSTALL_NUM || max == env.maxInstallParam
  {
    if env.maxInstallParam < DEFAULT_MAX_INSTALL_NUM then DEFAULT_MAX_INSTALL_NUM else env.maxInstallParam
  }

  function FullNamesByFd(env: Env, content: Bytes): seq<string>
  {
    if |content| > MAX_FONT_FILE_SIZE then [] else env.tool(content)
  }

  function DestName(stamp: Stamp, src: Source): (name: string)
    ensures IsStamped(name) && '/' !in name
    ensures '\\' in name <==> '\\' in GetFileName(src.path)
  {
    stamp + "_" + GetFileName(src.path)
  }

  // ----- Config files -----

  function ConfigOf(w: World, u: int): ConfigFile
  {
    if u in w.configs then w.configs[u] else NoFile
  }

  function Items(w: World, u: int): seq<Item>
  {
    ItemsOf(ConfigOf(w, u))
  }

  function WithConfig(w: World, u: int, file: ConfigFile): World
  {
    w.(configs := w.configs[u := file])
  }

  function WithItems(file: ConfigFile, items: seq<Item>): ConfigFile
    requires file.Parsed?
  {
    Parsed(file.versions, Array(items))
  }

  function EnsureConfig(w: World, u: int): World
  {
    if ConfigOf(w, u).NoFile? then WithConfig(w, u, FRESH_CONFIG) else w
  }

  function DeleteRecord(w: World, u: int, key: Key, writeOk: bool): (bool, World)
  {
    var file := ConfigOf(w, u);
    if HasArray(file) && First(file.fonts.items, key) < |file.fonts.items| && writeOk
    then (true, WithConfig(w, u, WithItems(file, RemoveFirst(file.fonts.items, key))))
    else (false, w)
  }

  function InsertUnderLimit(w: World, u: int, path: string, names: seq<string>, max: int, writeOk: bool): (int, World)
  {
    var file := ConfigOf(w, u);
    if !HasArray(file) then (ERR_INSTALL_FAIL, w)
    else if First(file.fonts.items, ByPath(path)) < |file.fonts.items| then (ERR_OK, w)
    else if |file.fonts.items| >= max then (ERR_MAX_FILE_COUNT, w)
    else if !writeOk then (ERR_INSTALL_FAIL, w)
    else (ERR_OK, WithConfig(w, u, WithItems(file, file.fonts.items + [ConstructItem(path, names)])))
  }

  /** cJSON_AddItemToArray on whatever "fontlist" is: a scalar keeps its printed form. */
  function AddToList(file: ConfigFile, item: Item): ConfigFile
    requires file.Parsed?
  {
    match file.fonts
    case Array(items) => WithItems(file, items + [item])
    case Object(members) => Parsed(file.versions, Object(members + [item]))
    case _ => file
  }

  function InsertScope(w: World, u: int, record: Record, writeOk: bool): (bool, World)
  {
    var file := ConfigOf(w, u);
    if !file.Parsed? || file.fonts.Missing? || !writeOk then (false, w)
    else (true, WithConfig(w, u, AddToList(file, ConstructScopeItem(record))))
  }

  function CheckAndUpdate(w: World, u: int, env: Env, writeOk: bool): (bool, World)
  {
    var file := ConfigOf(w, u);
    if !file.Parsed? then (false, w)
    else if IsCurrent(file.versions) then (true, w)
    else if !writeOk then (false, w)
    else (true, WithConfig(w, u, Upgrade(file, u, w.files, env.tool)))
  }

  function FindRecord(w: World, u: int, key: Key): Option<Record>
  {
    var items := Items(w, u);
    var i := First(items, key);
    if i < |items| then Some(ParseScopeRecord(items[i])) else None
  }

  /** GetFontFileByName: the path of the first record with the name, or "". */
  function FontFileByName(w: World, u: int, name: string): string
  {
    var items := Items(w, u);
    var i := First(items, ByName(name));
    if i < |items| then OrElse(items[i].path, "") else ""
  }

  // ----- Files -----

  function WithoutFile(files: Files, p: Path): Files
  {
    files - {p}
  }

  function RemoveTree(files: Files, dir: Path): Files
  {
    map p | p in files && !(dir <= p) :: files[p]
  }

  /** Copy into dir's temp directory, then rename into dir. */
  function CopyForInstall(files: Files, dir: Path, name: string, content: Bytes, io: Io): (bool, Files)
  {
    var temp, dest := dir + [TEMP_DIR, name], dir + [name];
    if OpenTemp in io.failed then (false, files)
    else
      var copied := files[temp := CopyContent(content, io.replies)];
      if !CopySucceeds(content, io.replies) then (false, copied)
      else if Rename in io.failed then (false, if Remove(0) in io.failed then copied else WithoutFile(copied, temp))
      else (true, WithoutFile(copied, temp)[dest := content])
  }

  // ----- User-level fonts -----

  /** The loop of InstallFont that drops records whose file is gone. */
  function DropStale(w: World, u: int, names: seq<string>, k: nat, io: Io): (int, World)
    requires k <= |names|
    decreases |names| - k
  {
    if k == |names| then (ERR_OK, w)
    else
      var path := FontFileByName(w, u, names[k]);
      if path == "" then DropStale(w, u, names, k + 1, io)
      else if RealPath(u, path) in w.files then (ERR_INSTALLED_ALRADY, w)
      else
        var (ok, next) := DeleteRecord(w, u, ByPath(path), Write(k) !in io.failed);
        if !ok then (ERR_INSTALL_FAIL, w) else DropStale(next, u, names, k + 1, io)
  }

  function InstallFont(w: World, env: Env, u: int, src: Source, stamp: Stamp, io: Io): (int, World)
  {
    if InitDir in io.failed then (ERR_FILE_NOT_EXISTS, w)
    else
      var names := FullNamesByFd(env, src.content);
      if names == [] then (ERR_FILE_VERIFY_FAIL, EnsureConfig(w, u))
      else
        var (ret, w2) := DropStale(EnsureConfig(w, u), u, names, 0, io);
        if ret != ERR_OK then (ret, w2)
        else if |Items(w2, u)| >= GetMaxInstallNum(env) then (ERR_MAX_FILE_COUNT, w2)
        else PlaceFont(w2, env, u, names, DestName(stamp, src), src.content, io)
  }

  /** The part of InstallFont from the copy on. */
  function PlaceFont(w: World, env: Env, u: int, names: seq<string>, name: string, content: Bytes, io: Io): (int, World)
  {
    var (copied, files) := CopyForInstall(w.files, InstallDir(u), name, content, io);
    if !copied then (ERR_COPY_FAIL, w.(files := files))
    else
      var (ret, w4) := InsertUnderLimit(w.(files := files), u, UserFontPath(name), names, GetMaxInstallNum(env),
                                        Write(|names|) !in io.failed);
      if ret == ERR_OK || Remove(1) in io.failed then (ret, w4)
      else (ret, w4.(files := RemoveTree(w4.files, InstallDir(u) + [name])))
  }

  function UninstallFont(w: World, u: int, name: string, io: Io): (int, World)
  {
    var record := FindRecord(w, u, ByName(name));
    if name == "" || record.None? || record.value.fontPath == "" || record.value.scope >= 0
    then (ERR_UNINSTALL_FILE_NOT_EXISTS, w)
    else
      var path := record.value.fontPath;
      var place := Resolve(u, path);
      if place.None? then (ERR_UNINSTALL_FILE_NOT_EXISTS, w)
      else if place.value in w.files && Remove(0) in io.failed then (ERR_UNINSTALL_REMOVE_FAIL, w)
      else
        var w1 := w.(files := WithoutFile(w.files, place.value));
        var (ok, w2) := DeleteRecord(w1, u, ByPath(path), Write(0) !in io.failed);
        (if ok then ERR_OK else ERR_UNINSTALL_FAIL, w2)
  }

  // ----- Scope fonts -----

  datatype ScopeInstall = ScopeInstall(scope: int, srcPath: string, bundleName: string, appIdentifier: string)

  function ScopeRecord(info: ScopeInstall, names: seq<string>, name: string): Record
  {
    Record(ScopeFontPath(info.appIdentifier, name), names, info.scope, info.srcPath, info.appIdentifier,
           info.bundleName)
  }

  function InstallScopeFont(w: World, env: Env, u: int, info: ScopeInstall, src: Source, stamp: Stamp, io: Io)
    : (int, World)
  {
    if info.scope != FONT_SCOPE_APP && info.scope != FONT_SCOPE_SESSION then (ERR_INVALID_PARAM, w)
    else if InitDir in io.failed then (ERR_SYSTEM_ERROR, w)
    else
      var (updated, w1) := CheckAndUpdate(EnsureConfig(w, u), u, env, Write(0) !in io.failed);
      if !updated then (ERR_SYSTEM_ERROR, w1)
      else
        var ret := ValidateScope(w1, env, u, info.srcPath, src.content);
        if ret != ERR_OK then (ret, w1)
        else PlaceScopeFont(w1, u, info, FullNamesByFd(env, src.content), DestName(stamp, src), src.content, io)
  }

  function ValidateScope(w: World, env: Env, u: int, srcPath: string, content: Bytes): int
  {
    var items, names := Items(w, u), FullNamesByFd(env, content);
    if First(items, ByUrl(srcPath)) < |items| then ERR_INSTALLED_ALRADY
    else if |items| >= GetMaxInstallNum(env) then ERR_MAX_FILE_COUNT
    else if names == [] then ERR_FILE_VERIFY_FAIL
    else if exists n :: n in names && First(items, ByName(n)) < |items| then ERR_INSTALLED_ALRADY
    else ERR_OK
  }

  function PlaceScopeFont(w: World, u: int, info: ScopeInstall, names: seq<string>, name: string, content: Bytes,
                          io: Io): (int, World)
  {
    var dir := InstallDir(u) + [info.appIdentifier];
    if InitScopeDir in io.failed then (ERR_SYSTEM_ERROR, w)
    else
      var (copied, files) := CopyForInstall(w.files, dir, name, content, io);
      if !copied then (ERR_COPY_FAIL, w.(files := files))
      else
        var (ok, w2) := InsertScope(w.(files := files), u, ScopeRecord(info, names, name), Write(1) !in io.failed);
        if ok then (ERR_OK, w2)
        else if Remove(1) in io.failed then (ERR_SYSTEM_ERROR, w2)
        else (ERR_SYSTEM_ERROR, w2.(files := RemoveTree(w2.files, dir + [name])))
  }

  predicate Owns(record: Record, bundleName: string, tokenId: int)
  {
    record.bundleName == bundleName && record.appIdentifier == MakeAppIdentifier(record.scope, tokenId)
  }

  function UninstallScopeFont(w: World, u: int, srcPath: string, bundleName: string, tokenId: int, io: Io)
    : (int, World)
  {
    var record := FindRecord(w, u, ByUrl(srcPath));
    if srcPath == "" || record.None? || !Owns(record.value, bundleName, tokenId) then (ERR_SCOPE_FONT_NOT_FOUND, w)
    else
      var place := Resolve(u, record.value.fontPath);
      if place.Some? && place.value in w.files && Remove(0) in io.failed then (ERR_UNINSTALL_REMOVE_FAIL, w)
      else
        var w1 := if place.Some? then w.(files := WithoutFile(w.files, place.value)) else w;
        var (ok, w2) := DeleteRecord(w1, u, ByUrl(srcPath), Write(0) !in io.failed);
        (if ok then ERR_OK else ERR_SYSTEM_ERROR, w2)
  }

  function GetFontScope(w: World, u: int, srcPath: string, bundleName: string, tokenId: int): int
  {
    var record := FindRecord(w, u, ByUrl(srcPath));
    if record.None? || !Owns(record.value, bundleName, tokenId) then ERR_SCOPE_FONT_NOT_FOUND
    else record.value.scope
  }

  // ----- Cleanup -----

  function FailedWrites(io: Io): set<nat>
  {
    set f | f in io.failed && f.Write? :: f.k
  }

  /** Remove the files of a snapshot of records, from the k-th on. */
  function RemoveFiles(files: Files, u: int, items: seq<Item>, k: nat, io: Io): Files
    decreases |items|
  {
    if items == [] then files
    else
      var place := Resolve(u, OrElse(items[0].path, ""));
      RemoveFiles(if place.Some? && Remove(k) !in io.failed then WithoutFile(files, place.value) else files,
                  u, items[1..], k + 1, io)
  }

  /** The loop shared by the three cleanups: remove each selected record's file, then its record by url. */
  function Cleanup(w: World, u: int, key: Key, io: Io): World
  {
    var file := ConfigOf(w, u);
    if !HasArray(file) then w
    else
      var chosen := Select(file.fonts.items, key);
      var items := RemoveEach(file.fonts.items, Urls(chosen), 0, FailedWrites(io));
      WithConfig(w.(files := RemoveFiles(w.files, u, chosen, 0, io)), u, WithItems(file, items))
  }

  function CleanupAppScopeFonts(w: World, u: int, appIdentifier: string, io: Io): World
  {
    var next := Cleanup(w, u, ByApp(appIdentifier), io);
    if Remove(|Select(Items(w, u), ByApp(appIdentifier))|) in io.failed then next
    else next.(files := RemoveTree(next.files, InstallDir(u) + [appIdentifier]))
  }

  /** The bulk deletion of DeleteScopeFontRecordByAppId. */
  function DeleteByApp(w: World, u: int, appIdentifier: string, writeOk: bool): (bool, World)
  {
    var file := ConfigOf(w, u);
    if HasArray(file) && First(file.fonts.items, ByApp(appIdentifier)) < |file.fonts.items| && writeOk
    then (true, WithConfig(w, u, WithItems(file, Without(file.fonts.items, ByApp(appIdentifier)))))
    else (false, w)
  }
}
