/**
  Whole runs of serialised store operations by any users, with any faults.
 */
module StoreRuns {
  import opened Wrappers
  import opened Paths
  import opened FileCopy
  import opened RecordStore
  import opened FontStore
  import opened StoreInvariants
  import opened InstallTheorems
  import opened UninstallTheorems

  datatype Call =
    | Install(user: int, src: Source, stamp: Stamp, io: Io)
    | Uninstall(user: int, name: string, io: Io)
    | InstallScope(user: int, scope: int, srcPath: string, bundleName: string, tokenId: int,
                   src: Source, stamp: Stamp, io: Io)
    | UninstallScope(user: int, srcPath: string, bundleName: string, tokenId: int, io: Io)
    | CleanupApp(user: int, tokenId: int, io: Io)
    | CleanupUser(user: int, io: Io)
    | CleanupApps(user: int, io: Io)
    | Update(user: int, io: Io)                       // the record update at the end of a migration

  function InfoOf(scope: int, srcPath: string, bundleName: string, tokenId: int): ScopeInstall
  {
    ScopeInstall(scope, srcPath, bundleName, MakeAppIdentifier(scope, tokenId))
  }

  function Apply(w: World, env: Env, call: Call): (int, World)
  {
    match call
    case Install(u, src, stamp, io) => InstallFont(w, env, u, src, stamp, io)
    case Uninstall(u, name, io) => UninstallFont(w, u, name, io)
    case InstallScope(u, scope, srcPath, bundle, token, src, stamp, io) =>
      InstallScopeFont(w, env, u, InfoOf(scope, srcPath, bundle, token), src, stamp, io)
    case UninstallScope(u, srcPath, bundle, token, io) => UninstallScopeFont(w, u, srcPath, bundle, token, io)
    case CleanupApp(u, token, io) => (ERR_OK, CleanupAppScopeFonts(w, u, MakeAppIdentifier(FONT_SCOPE_APP, token), io))
    case CleanupUser(u, io) => (ERR_OK, Cleanup(w, u, AnyScope, io))
    case CleanupApps(u, io) => (ERR_OK, Cleanup(w, u, AppScope, io))
    case Update(u, io) =>
      var (ok, w2) := CheckAndUpdate(w, u, env, Write(0) !in io.failed);
      (if ok then ERR_OK else ERR_SYSTEM_ERROR, w2)
  }

  // ----- One user per call -----

  /** Only user u's config, and only files below user u's install directory, may differ. */
  ghost predicate OnlyUser(w: World, w2: World, u: int)
  {
    && w2.configs - {u} == w.configs - {u}
    && (forall p :: !(InstallDir(u) <= p) ==> (p in w2.files <==> p in w.files))
    && (forall p :: !(InstallDir(u) <= p) && p in w.files && p in w2.files ==> w2.files[p] == w.files[p])
  }

  lemma OnlyUserTwice(w: World, w1: World, w2: World, u: int)
    requires OnlyUser(w, w1, u) && OnlyUser(w1, w2, u)
    ensures OnlyUser(w, w2, u)
  {
    hide InstallDir;
  }

  lemma SetConfigOnly(w: World, u: int, file: ConfigFile)
    ensures OnlyUser(w, WithConfig(w, u, file), u) && OnlyUser(w, w, u)
  {
    hide InstallDir;
    assert WithConfig(w, u, file).configs - {u} == w.configs - {u};
  }

  lemma {:induction false} DropStaleOnly(w: World, u: int, names: seq<string>, k: nat, io: Io)
    requires k <= |names|
    ensures OnlyUser(w, DropStale(w, u, names, k, io).1, u)
    decreases |names| - k
  {
    hide OnlyUser, RealPath, RemoveFirst, First;
    SetConfigOnly(w, u, NoFile);
    if k < |names| {
      var path := FontFileByName(w, u, names[k]);
      var next := if path == "" then w else DeleteRecord(w, u, ByPath(path), Write(k) !in io.failed).1;
      SetConfigOnly(w, u, ConfigOf(next, u));
      DropStaleOnly(next, u, names, k + 1, io);
      OnlyUserTwice(w, next, DropStale(next, u, names, k + 1, io).1, u);
    }
  }

  lemma FilesOnly(w: World, u: int, files: Files)
    requires forall p :: p in w.files && p !in files ==> InstallDir(u) <= p
    requires forall p :: p in files && (p in w.files ==> files[p] != w.files[p]) ==> InstallDir(u) <= p
    ensures OnlyUser(w, w.(files := files), u)
  {
    hide InstallDir;
  }

  lemma CopyOnly(w: World, u: int, dir: Path, name: string, content: Bytes, io: Io)
    requires InstallDir(u) <= dir
    ensures OnlyUser(w, w.(files := CopyForInstall(w.files, dir, name, content, io).1), u)
    ensures OnlyUser(w, w.(files := RemoveTree(w.files, dir)), u)
    ensures OnlyUser(w, w.(files := RemoveTree(w.files, dir + [name])), u)
  {
    hide InstallDir, CopyContent, CopySucceeds, OnlyUser;
    assert InstallDir(u) <= dir + [TEMP_DIR, name] && InstallDir(u) <= dir + [name];
    FilesOnly(w, u, CopyForInstall(w.files, dir, name, content, io).1);
    forall p | p in w.files && p !in RemoveTree(w.files, dir) ensures InstallDir(u) <= p {}
    forall p | p in w.files && p !in RemoveTree(w.files, dir + [name]) ensures InstallDir(u) <= p {}
    FilesOnly(w, u, RemoveTree(w.files, dir));
    FilesOnly(w, u, RemoveTree(w.files, dir + [name]));
  }

  lemma {:induction false} RemoveFilesOnly(files: Files, u: int, items: seq<Item>, k: nat, io: Io)
    ensures forall p :: p in RemoveFiles(files, u, items, k, io) ==>
              p in files && RemoveFiles(files, u, items, k, io)[p] == files[p]
    ensures forall p :: p in files && p !in RemoveFiles(files, u, items, k, io) ==> InstallDir(u) <= p
    decreases |items|
  {
    hide Resolve, InstallDir;
    if items != [] {
      var place := Resolve(u, OrElse(items[0].path, ""));
      var next := if place.Some? && Remove(k) !in io.failed then WithoutFile(files, place.value) else files;
      RemoveFilesOnly(next, u, items[1..], k + 1, io);
    }
  }

  lemma CleanupOnly(w: World, u: int, key: Key, io: Io)
    ensures OnlyUser(w, Cleanup(w, u, key, io), u)
  {
    hide OnlyUser, InstallDir, RemoveEach, RemoveFiles, Select, Urls;
    SetConfigOnly(w, u, NoFile);
    var file := ConfigOf(w, u);
    if HasArray(file) {
      var chosen := Select(file.fonts.items, key);
      var w1 := w.(files := RemoveFiles(w.files, u, chosen, 0, io));
      RemoveFilesOnly(w.files, u, chosen, 0, io);
      FilesOnly(w, u, w1.files);
      var w2 := Cleanup(w, u, key, io);
      SetConfigOnly(w1, u, ConfigOf(w2, u));
      assert w2 == WithConfig(w1, u, ConfigOf(w2, u));
      OnlyUserTwice(w, w1, w2, u);
    }
  }

  lemma ResolvedFileOnly(w: World, u: int, path: string)
    ensures Resolve(u, path).Some? ==> OnlyUser(w, w.(files := WithoutFile(w.files, Resolve(u, path).value)), u)
  {
    hide Resolve, InstallDir, OnlyUser;
    if Resolve(u, path).Some? {
      FilesOnly(w, u, WithoutFile(w.files, Resolve(u, path).value));
    }
  }

  lemma PlaceFontOnly(w: World, env: Env, u: int, names: seq<string>, name: string, content: Bytes, io: Io)
    ensures OnlyUser(w, PlaceFont(w, env, u, names, name, content, io).1, u)
  {
    hide OnlyUser, InstallDir, CopyForInstall, RemoveTree, First;
    var (copied, files) := CopyForInstall(w.files, InstallDir(u), name, content, io);
    var w1 := w.(files := files);
    CopyOnly(w, u, InstallDir(u), name, content, io);
    if copied {
      var w2 := InsertUnderLimit(w1, u, UserFontPath(name), names, GetMaxInstallNum(env), Write(|names|) !in io.failed).1;
      SetConfigOnly(w1, u, ConfigOf(w2, u));
      OnlyUserTwice(w, w1, w2, u);
      CopyOnly(w2, u, InstallDir(u), name, content, io);
      OnlyUserTwice(w, w2, w2.(files := RemoveTree(w2.files, InstallDir(u) + [name])), u);
    }
  }

  lemma PlaceScopeFontOnly(w: World, u: int, info: ScopeInstall, names: seq<string>, name: string, content: Bytes, io: Io)
    ensures OnlyUser(w, PlaceScopeFont(w, u, info, names, name, content, io).1, u)
  {
    hide OnlyUser, InstallDir, CopyForInstall, RemoveTree, ConstructScopeItem;
    SetConfigOnly(w, u, NoFile);
    var dir := InstallDir(u) + [info.appIdentifier];
    var (copied, files) := CopyForInstall(w.files, dir, name, content, io);
    var w1 := w.(files := files);
    CopyOnly(w, u, dir, name, content, io);
    if copied {
      var w2 := InsertScope(w1, u, ScopeRecord(info, names, name), Write(1) !in io.failed).1;
      SetConfigOnly(w1, u, ConfigOf(w2, u));
      OnlyUserTwice(w, w1, w2, u);
      CopyOnly(w2, u, dir, name, content, io);
      OnlyUserTwice(w, w2, w2.(files := RemoveTree(w2.files, dir + [name])), u);
    }
  }

  lemma InstallOnly(w: World, env: Env, u: int, src: Source, stamp: Stamp, io: Io)
    ensures OnlyUser(w, InstallFont(w, env, u, src, stamp, io).1, u)
  {
    hide OnlyUser, DropStale, PlaceFont, DestName;
    SetConfigOnly(w, u, FRESH_CONFIG);
    var names := FullNamesByFd(env, src.content);
    var w1 := EnsureConfig(w, u);
    DropStaleOnly(w1, u, names, 0, io);
    var w2 := DropStale(w1, u, names, 0, io).1;
    OnlyUserTwice(w, w1, w2, u);
    PlaceFontOnly(w2, env, u, names, DestName(stamp, src), src.content, io);
    OnlyUserTwice(w, w2, PlaceFont(w2, env, u, names, DestName(stamp, src), src.content, io).1, u);
  }

  lemma InstallScopeOnly(w: World, env: Env, u: int, info: ScopeInstall, src: Source, stamp: Stamp, io: Io)
    ensures OnlyUser(w, InstallScopeFont(w, env, u, info, src, stamp, io).1, u)
  {
    hide OnlyUser, PlaceScopeFont, DestName, ValidateScope, Upgrade;
    SetConfigOnly(w, u, FRESH_CONFIG);
    var w1 := EnsureConfig(w, u);
    var w2 := CheckAndUpdate(w1, u, env, Write(0) !in io.failed).1;
    SetConfigOnly(w1, u, ConfigOf(w2, u));
    OnlyUserTwice(w, w1, w2, u);
    var names, name := FullNamesByFd(env, src.content), DestName(stamp, src);
    PlaceScopeFontOnly(w2, u, info, names, name, src.content, io);
    OnlyUserTwice(w, w2, PlaceScopeFont(w2, u, info, names, name, src.content, io).1, u);
  }

  lemma DeleteOnly(w: World, w1: World, u: int, key: Key, writeOk: bool)
    requires OnlyUser(w, w1, u)
    ensures OnlyUser(w, DeleteRecord(w1, u, key, writeOk).1, u)
  {
    hide OnlyUser, First, RemoveFirst;
    var w2 := DeleteRecord(w1, u, key, writeOk).1;
    SetConfigOnly(w1, u, ConfigOf(w2, u));
    OnlyUserTwice(w, w1, w2, u);
  }

  lemma UninstallOnly(w: World, u: int, name: string, io: Io)
    ensures OnlyUser(w, UninstallFont(w, u, name, io).1, u)
  {
    hide OnlyUser, Resolve, DeleteRecord, First;
    SetConfigOnly(w, u, NoFile);
    var record := FindRecord(w, u, ByName(name));
    if record.Some? {
      var path := record.value.fontPath;
      ResolvedFileOnly(w, u, path);
      if Resolve(u, path).Some? {
        DeleteOnly(w, w.(files := WithoutFile(w.files, Resolve(u, path).value)), u, ByPath(path), Write(0) !in io.failed);
      }
    }
  }

  lemma UninstallScopeOnly(w: World, u: int, srcPath: string, bundle: string, token: int, io: Io)
    ensures OnlyUser(w, UninstallScopeFont(w, u, srcPath, bundle, token, io).1, u)
  {
    hide OnlyUser, Resolve, DeleteRecord, First, Owns;
    SetConfigOnly(w, u, NoFile);
    var record := FindRecord(w, u, ByUrl(srcPath));
    if record.Some? {
      var path := record.value.fontPath;
      ResolvedFileOnly(w, u, path);
      var w1 := if Resolve(u, path).Some? then w.(files := WithoutFile(w.files, Resolve(u, path).value)) else w;
      DeleteOnly(w, w1, u, ByUrl(srcPath), Write(0) !in io.failed);
    }
  }

  lemma UpdateOnly(w: World, u: int, env: Env, writeOk: bool)
    ensures OnlyUser(w, CheckAndUpdate(w, u, env, writeOk).1, u)
  {
    hide OnlyUser, Upgrade, InstallDir;
    SetConfigOnly(w, u, Upgrade(ConfigOf(w, u), u, w.files, env.tool));
  }

  /**
    Whatever the config files hold, however malformed, no operation touches the config of another
    user or a file outside the acting user's install directory.
   */
  lemma OneUserPerCall(w: World, env: Env, call: Call)
    ensures OnlyUser(w, Apply(w, env, call).1, call.user)
  {
    hide OnlyUser, InstallFont, InstallScopeFont, UninstallFont, UninstallScopeFont, Cleanup, RemoveTree, InstallDir;
    match call {
      case Install(u, src, stamp, io) => InstallOnly(w, env, u, src, stamp, io);
      case Uninstall(u, name, io) => UninstallOnly(w, u, name, io);
      case InstallScope(u, scope, srcPath, bundle, token, src, stamp, io) =>
        InstallScopeOnly(w, env, u, InfoOf(scope, srcPath, bundle, token), src, stamp, io);
      case UninstallScope(u, srcPath, bundle, token, io) => UninstallScopeOnly(w, u, srcPath, bundle, token, io);
      case CleanupApp(u, token, io) =>
        var app := MakeAppIdentifier(FONT_SCOPE_APP, token);
        var w1 := Cleanup(w, u, ByApp(app), io);
        CleanupOnly(w, u, ByApp(app), io);
        CopyOnly(w1, u, InstallDir(u) + [app], "", [], io);
        OnlyUserTwice(w, w1, w1.(files := RemoveTree(w1.files, InstallDir(u) + [app])), u);
      case CleanupUser(u, io) => CleanupOnly(w, u, AnyScope, io);
      case CleanupApps(u, io) => CleanupOnly(w, u, AppScope, io);
      case Update(u, io) => UpdateOnly(w, u, env, Write(0) !in io.failed);
    }
  }

  // ----- The record invariants over runs -----

  /** The request a client can make: a source url, and a destination name nothing holds. */
  ghost predicate Admissible(w: World, call: Call)
  {
    match call
    case Install(u, src, stamp, _) =>
      Fresh(w, u, UserFontPath(DestName(stamp, src)), InstallDir(u) + [DestName(stamp, src)])
    case InstallScope(u, scope, srcPath, _, token, src, stamp, _) =>
      && srcPath != ""
      && Fresh(w, u, ScopeFontPath(MakeAppIdentifier(scope, token), DestName(stamp, src)),
               InstallDir(u) + [MakeAppIdentifier(scope, token), DestName(stamp, src)])
    case _ => true
  }

  const EMPTY_WORLD := World(map[], map[])

  function Run(w: World, env: Env, calls: seq<Call>): World
    decreases |calls|
  {
    if calls == [] then w else Run(Apply(w, env, calls[0]).1, env, calls[1..])
  }

  ghost predicate AdmissibleRun(w: World, env: Env, calls: seq<Call>)
    decreases |calls|
  {
    calls != [] ==> Admissible(w, calls[0]) && AdmissibleRun(Apply(w, env, calls[0]).1, env, calls[1..])
  }

  lemma InvOfOneUser(w: World, w2: World, u: int, max: int)
    requires WorldInv(w, max) && OnlyUser(w, w2, u)
    requires u in w2.configs ==> ConfigInv(w2.configs[u], max)
    ensures WorldInv(w2, max)
  {
    hide ConfigInv, InstallDir;
    forall v | v in w2.configs && v != u ensures v in w.configs && w2.configs[v] == w.configs[v] {
      assert v in w2.configs - {u} && (w2.configs - {u})[v] == w2.configs[v];
      assert v in w.configs - {u} && (w.configs - {u})[v] == w.configs[v];
    }
  }

  lemma EnsuredInv(w: World, u: int, max: int)
    requires u in w.configs ==> ConfigInv(w.configs[u], max)
    requires max >= 0
    ensures ConfigInv(ConfigOf(EnsureConfig(w, u), u), max)
  {
  }

  lemma AppIdentifierIs(scope: int, token: int)
    ensures IsAppIdentifier(scope, MakeAppIdentifier(scope, token))
  {
  }

  lemma NoConfigNoChange(w: World, env: Env, call: Call)
    requires call.user !in w.configs && !call.Install? && !call.InstallScope?
    ensures Apply(w, env, call).1.configs == w.configs
  {
    hide Resolve, RemoveTree;
  }

  /** A 7.0 config is never rewritten. */
  lemma UpdateIsIdle(w: World, env: Env, call: Call, max: int)
    requires call.Update? && (call.user in w.configs ==> ConfigInv(w.configs[call.user], max))
    ensures Apply(w, env, call).1 == w
  {
    hide RecordsInv, Upgrade;
  }

  lemma ApplyKeepsConfigInv(w: World, env: Env, call: Call)
    requires WorldInv(w, GetMaxInstallNum(env)) && Admissible(w, call)
    ensures var w2 := Apply(w, env, call).1;
            call.user in w2.configs ==> ConfigInv(w2.configs[call.user], GetMaxInstallNum(env))
  {
    hide ConfigInv, InstallFont, InstallScopeFont, UninstallFont, UninstallScopeFont, Cleanup, RemoveTree, InstallDir,
        DestName, UserFontPath, ScopeFontPath, IsAppIdentifier, Fresh, EnsureConfig, MakeAppIdentifier;
    var max := GetMaxInstallNum(env);
    var u := call.user;
    if call.Install? {
      EnsuredInv(w, u, max);
      InstallFontExact(w, env, u, call.src, call.stamp, call.io);
      InitFaultKeeps(w, env, call);
    } else if call.InstallScope? {
      EnsuredInv(w, u, max);
      var info := InfoOf(call.scope, call.srcPath, call.bundleName, call.tokenId);
      AppIdentifierIs(call.scope, call.tokenId);
      InitFaultKeeps(w, env, call);
      if call.scope == FONT_SCOPE_APP || call.scope == FONT_SCOPE_SESSION {
        InstallScopeExact(w, env, u, info, call.src, call.stamp, call.io);
      }
    } else if u !in w.configs {
      NoConfigNoChange(w, env, call);
    } else {
      match call {
        case Uninstall(_, name, io) => UninstallFontExact(w, u, name, io, max);
        case UninstallScope(_, srcPath, bundle, token, io) => UninstallScopeExact(w, u, srcPath, bundle, token, io, max);
        case CleanupApp(_, token, io) =>
          CleanupWorldExact(w, u, ByApp(MakeAppIdentifier(FONT_SCOPE_APP, token)), io, max);
        case CleanupUser(_, io) => CleanupWorldExact(w, u, AnyScope, io, max);
        case CleanupApps(_, io) => CleanupWorldExact(w, u, AppScope, io, max);
        case Update(_, _) => UpdateIsIdle(w, env, call, max);
        case _ =>
      }
    }
  }

  lemma InitFaultKeeps(w: World, env: Env, call: Call)
    ensures call.Install? && InitDir in call.io.failed ==> Apply(w, env, call).1 == w
    ensures call.InstallScope? && InitDir in call.io.failed ==> Apply(w, env, call).1 == w
    ensures call.InstallScope? && call.scope != FONT_SCOPE_APP && call.scope != FONT_SCOPE_SESSION ==>
              Apply(w, env, call) == (ERR_INVALID_PARAM, w)
  {
  }

  /**
    Over every run, under every fault, each user's records keep distinct paths, disjoint font names,
    distinct source urls, their place below the caller's own directory, and the cap.
   */
  lemma {:induction false} RunKeepsInv(w: World, env: Env, calls: seq<Call>)
    requires WorldInv(w, GetMaxInstallNum(env)) && AdmissibleRun(w, env, calls)
    ensures WorldInv(Run(w, env, calls), GetMaxInstallNum(env))
    decreases |calls|
  {
    hide WorldInv, Apply, Admissible;
    if calls != [] {
      var w2 := Apply(w, env, calls[0]).1;
      OneUserPerCall(w, env, calls[0]);
      ApplyKeepsConfigInv(w, env, calls[0]);
      InvOfOneUser(w, w2, calls[0].user, GetMaxInstallNum(env));
      RunKeepsInv(w2, env, calls[1..]);
    }
  }
}
