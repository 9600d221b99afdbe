/**
  Only InstallScopeFont adds scope records, and only to 7.0 configs: over any run from configs
  whose version the upgrade knows, the upgrade, whose resolver drops the scope directory, never
  meets a scope record.
 */
module VersionRuns {
  import opened Wrappers
  import opened Paths
  import opened FileCopy
  import opened RecordStore
  import opened FontStore
  import opened StoreRuns

  /** No new scope record, and no version lost. */
  ghost predicate KeepsScope(f: ConfigFile, g: ConfigFile)
  {
    && (VersionInv(f) ==> VersionInv(g))
    && (forall it: Item :: it in ItemsOf(g) && Matches(it, AnyScope) ==> it in ItemsOf(f))
  }

  lemma KeepsTwice(f: ConfigFile, g: ConfigFile, h: ConfigFile)
    requires KeepsScope(f, g) && KeepsScope(g, h)
    ensures KeepsScope(f, h) && KeepsScope(f, f)
  {
    hide VersionInv;
  }

  lemma KeepsSame(f: ConfigFile)
    ensures KeepsScope(f, f)
  {
    hide VersionInv;
  }

  lemma KeepsSubset(f: ConfigFile, items: seq<Item>)
    requires HasArray(f)
    requires forall it: Item :: it in items && Matches(it, AnyScope) ==> it in f.fonts.items
    ensures KeepsScope(f, WithItems(f, items))
  {
    hide IsUpgradable, IsCurrent;
    var g := WithItems(f, items);
    if HasScopeItem(g) {
      var it :| it in ItemsOf(g) && Matches(it, AnyScope);
      assert it in ItemsOf(f) && Matches(it, AnyScope);
    }
  }

  lemma KeepsEnsured(w: World, u: int)
    ensures KeepsScope(ConfigOf(w, u), ConfigOf(EnsureConfig(w, u), u))
  {
    KeepsSame(ConfigOf(w, u));
    CurrentIsVersionInv(FRESH_CONFIG);
  }

  lemma CurrentIsVersionInv(file: ConfigFile)
    requires file.Parsed? ==> IsCurrent(file.versions)
    ensures VersionInv(file)
  {
  }

  lemma RemoveFirstSubset(items: seq<Item>, key: Key)
    ensures forall it :: it in RemoveFirst(items, key) ==> it in items
  {
  }

  lemma {:induction false} RemoveEachSubset(items: seq<Item>, urls: seq<string>, k: nat, failed: set<nat>)
    ensures forall it :: it in RemoveEach(items, urls, k, failed) ==> it in items
    decreases |urls|
  {
    hide RemoveFirst;
    if urls != [] {
      RemoveFirstSubset(items, ByUrl(urls[0]));
      RemoveEachSubset(if k in failed then items else RemoveFirst(items, ByUrl(urls[0])), urls[1..], k + 1, failed);
    }
  }

  lemma DeleteKeeps(w: World, u: int, key: Key, writeOk: bool)
    ensures KeepsScope(ConfigOf(w, u), ConfigOf(DeleteRecord(w, u, key, writeOk).1, u))
  {
    hide First, RemoveFirst, KeepsScope;
    RemoveFirstSubset(Items(w, u), key);
    if HasArray(ConfigOf(w, u)) {
      KeepsSubset(ConfigOf(w, u), RemoveFirst(Items(w, u), key));
    }
    KeepsSame(ConfigOf(w, u));
  }

  lemma CleanupKeeps(w: World, u: int, key: Key, io: Io)
    ensures KeepsScope(ConfigOf(w, u), ConfigOf(Cleanup(w, u, key, io), u))
  {
    hide RemoveEach, RemoveFiles, Select, Urls, KeepsScope;
    KeepsSame(ConfigOf(w, u));
    if HasArray(ConfigOf(w, u)) {
      var urls := Urls(Select(Items(w, u), key));
      RemoveEachSubset(Items(w, u), urls, 0, FailedWrites(io));
      KeepsSubset(ConfigOf(w, u), RemoveEach(Items(w, u), urls, 0, FailedWrites(io)));
    }
  }

  lemma {:induction false} DropStaleKeeps(w: World, u: int, names: seq<string>, k: nat, io: Io)
    requires k <= |names|
    ensures KeepsScope(ConfigOf(w, u), ConfigOf(DropStale(w, u, names, k, io).1, u))
    decreases |names| - k
  {
    hide RealPath, DeleteRecord, FontFileByName, KeepsScope, ConfigOf;
    KeepsSame(ConfigOf(w, u));
    if k < |names| {
      var path := FontFileByName(w, u, names[k]);
      var next := if path == "" then w else DeleteRecord(w, u, ByPath(path), Write(k) !in io.failed).1;
      DeleteKeeps(w, u, ByPath(path), Write(k) !in io.failed);
      DropStaleKeeps(next, u, names, k + 1, io);
      KeepsTwice(ConfigOf(w, u), ConfigOf(next, u), ConfigOf(DropStale(next, u, names, k + 1, io).1, u));
    }
  }

  lemma InsertKeeps(w: World, u: int, path: string, names: seq<string>, max: int, writeOk: bool)
    ensures KeepsScope(ConfigOf(w, u), ConfigOf(InsertUnderLimit(w, u, path, names, max, writeOk).1, u))
  {
    hide First, KeepsScope;
    KeepsSame(ConfigOf(w, u));
    if HasArray(ConfigOf(w, u)) {
      KeepsSubset(ConfigOf(w, u), Items(w, u) + [ConstructItem(path, names)]);
    }
  }

  lemma PlaceFontKeeps(w: World, env: Env, u: int, names: seq<string>, name: string, content: Bytes, io: Io)
    ensures KeepsScope(ConfigOf(w, u), ConfigOf(PlaceFont(w, env, u, names, name, content, io).1, u))
  {
    hide CopyForInstall, InsertUnderLimit, RemoveTree, UserFontPath, InstallDir, KeepsScope;
    var files := CopyForInstall(w.files, InstallDir(u), name, content, io).1;
    var w1 := w.(files := files);
    assert ConfigOf(w1, u) == ConfigOf(w, u);
    KeepsSame(ConfigOf(w, u));
    InsertKeeps(w1, u, UserFontPath(name), names, GetMaxInstallNum(env), Write(|names|) !in io.failed);
  }

  lemma InstallKeeps(w: World, env: Env, u: int, src: Source, stamp: Stamp, io: Io)
    ensures KeepsScope(ConfigOf(w, u), ConfigOf(InstallFont(w, env, u, src, stamp, io).1, u))
  {
    hide KeepsScope, DropStale, PlaceFont, DestName, EnsureConfig, FullNamesByFd, ConfigOf, Items;
    KeepsSame(ConfigOf(w, u));
    KeepsEnsured(w, u);
    var w1 := EnsureConfig(w, u);
    var names, name := FullNamesByFd(env, src.content), DestName(stamp, src);
    DropStaleKeeps(w1, u, names, 0, io);
    var w2 := DropStale(w1, u, names, 0, io).1;
    KeepsTwice(ConfigOf(w, u), ConfigOf(w1, u), ConfigOf(w2, u));
    PlaceFontKeeps(w2, env, u, names, name, src.content, io);
    KeepsTwice(ConfigOf(w, u), ConfigOf(w2, u),
               ConfigOf(PlaceFont(w2, env, u, names, name, src.content, io).1, u));
  }

  lemma UninstallKeeps(w: World, env: Env, call: Call)
    requires call.Uninstall? || call.UninstallScope?
    ensures KeepsScope(ConfigOf(w, call.user), ConfigOf(Apply(w, env, call).1, call.user))
  {
    hide KeepsScope, DeleteRecord, Resolve, First, Owns;
    var u := call.user;
    KeepsSame(ConfigOf(w, u));
    var key := if call.Uninstall? then ByName(call.name) else ByUrl(call.srcPath);
    var record := FindRecord(w, u, key);
    if record.Some? {
      var place := Resolve(u, record.value.fontPath);
      var w1 := if place.Some? then w.(files := WithoutFile(w.files, place.value)) else w;
      assert ConfigOf(w1, u) == ConfigOf(w, u);
      DeleteKeeps(w1, u, if call.Uninstall? then ByPath(record.value.fontPath) else key, Write(0) !in call.io.failed);
    }
  }

  /**
    An update leaves a 7.0 config alone, and any config it cannot write; in any other, each user-level
    record gets the names of its file as it is now, or none if the file is gone, and a record without
    a path keeps what it has.
   */
  lemma UpdateRereadsNames(w: World, u: int, env: Env, io: Io, i: nat, name: string)
    requires ConfigOf(w, u).Parsed? && i < |Items(w, u)| && IsEntryName(name)
    ensures var (ret, w2) := Apply(w, env, Update(u, io));
            var it, home := Items(w, u)[i], InstallDir(u) + [name];
            var current := ConfigOf(w, u).versions != [] && ConfigOf(w, u).versions[0] == Text("7.0");
            var writes := Write(0) !in io.failed;
            && (ret == ERR_OK <==> current || writes)
            && (current || !writes ==> w2 == w)
            && w2.files == w.files && |Items(w2, u)| == |Items(w, u)|
            && (!current && writes && it.path == Some(UserFontPath(name)) ==>
                  Items(w2, u)[i] == it.(names := Some(if home in w.files then env.tool(w.files[home]) else [])))
            && (it.path.None? ==> Items(w2, u)[i] == it)
  {
    hide UserFontPath, InstallDir, Upgrade, IsEntryName;
    UpgradeRereads(ConfigOf(w, u), u, w.files, env.tool, i, name);
  }

  lemma UpdateKeeps(w: World, u: int, env: Env, writeOk: bool)
    requires VersionInv(ConfigOf(w, u))
    ensures KeepsScope(ConfigOf(w, u), ConfigOf(CheckAndUpdate(w, u, env, writeOk).1, u))
  {
    var file := ConfigOf(w, u);
    assert file.Parsed? ==> Upgrade(file, u, w.files, env.tool).Parsed?;
    hide Upgrade, IsUpgradable, IsCurrent;
    KeepsSame(file);
    if file.Parsed? {
      UpgradeExact(file, u, w.files, env.tool);
      UpgradeKeepsScope(file, u, w.files, env.tool);
    }
  }

  lemma ApplyKeepsScope(w: World, env: Env, call: Call)
    requires !call.InstallScope? && (call.Update? ==> VersionInv(ConfigOf(w, call.user)))
    ensures KeepsScope(ConfigOf(w, call.user), ConfigOf(Apply(w, env, call).1, call.user))
  {
    hide KeepsScope, InstallFont, Cleanup, RemoveTree, InstallDir, UninstallFont, UninstallScopeFont;
    var u := call.user;
    match call {
      case Install(_, src, stamp, io) => InstallKeeps(w, env, u, src, stamp, io);
      case CleanupApp(_, token, io) => CleanupKeeps(w, u, ByApp(MakeAppIdentifier(FONT_SCOPE_APP, token)), io);
      case CleanupUser(_, io) => CleanupKeeps(w, u, AnyScope, io);
      case CleanupApps(_, io) => CleanupKeeps(w, u, AppScope, io);
      case Update(_, io) => UpdateKeeps(w, u, env, Write(0) !in io.failed);
      case _ => UninstallKeeps(w, env, call);
    }
  }

  // ----- The one call that adds scope records -----

  lemma PlaceScopeFontVersion(w: World, u: int, info: ScopeInstall, names: seq<string>, name: string, content: Bytes,
                              io: Io)
    requires ConfigOf(w, u).Parsed? && IsCurrent(ConfigOf(w, u).versions)
    ensures VersionInv(ConfigOf(PlaceScopeFont(w, u, info, names, name, content, io).1, u))
  {
    hide VersionInv, CopyForInstall, RemoveTree, InstallDir, ScopeRecord, ConstructScopeItem;
    CurrentIsVersionInv(ConfigOf(PlaceScopeFont(w, u, info, names, name, content, io).1, u));
  }

  lemma CheckAndUpdateVersion(w: World, u: int, env: Env, writeOk: bool)
    requires VersionInv(ConfigOf(w, u))
    ensures var (updated, w2) := CheckAndUpdate(w, u, env, writeOk);
            if updated then ConfigOf(w2, u).Parsed? && IsCurrent(ConfigOf(w2, u).versions) else w2 == w
  {
    hide HasScopeItem, RefreshFonts;
    if ConfigOf(w, u).Parsed? {
      UpgradeVersionsExact(ConfigOf(w, u).versions);
    }
  }

  lemma InstallScopeVersion(w: World, env: Env, u: int, info: ScopeInstall, src: Source, stamp: Stamp, io: Io)
    requires VersionInv(ConfigOf(w, u))
    ensures VersionInv(ConfigOf(InstallScopeFont(w, env, u, info, src, stamp, io).1, u))
  {
    hide VersionInv, PlaceScopeFont, ValidateScope, DestName, CheckAndUpdate, IsCurrent, EnsureConfig, FullNamesByFd;
    KeepsEnsured(w, u);
    var w1 := EnsureConfig(w, u);
    var (updated, w2) := CheckAndUpdate(w1, u, env, Write(0) !in io.failed);
    CheckAndUpdateVersion(w1, u, env, Write(0) !in io.failed);
    if updated {
      CurrentIsVersionInv(ConfigOf(w2, u));
      PlaceScopeFontVersion(w2, u, info, FullNamesByFd(env, src.content), DestName(stamp, src), src.content, io);
    }
  }

  lemma ApplyKeepsVersionInv(w: World, env: Env, call: Call)
    requires VersionInv(ConfigOf(w, call.user))
    ensures VersionInv(ConfigOf(Apply(w, env, call).1, call.user))
  {
    hide VersionInv, Apply;
    if call.InstallScope? {
      InstallScopeVersion(w, env, call.user, InfoOf(call.scope, call.srcPath, call.bundleName, call.tokenId), call.src,
                          call.stamp, call.io);
      assert Apply(w, env, call) == InstallScopeFont(w, env, call.user,
          InfoOf(call.scope, call.srcPath, call.bundleName, call.tokenId), call.src, call.stamp, call.io)
        by { ApplyInstallScope(w, env, call); }
    } else {
      ApplyKeepsScope(w, env, call);
    }
  }

  lemma ApplyInstallScope(w: World, env: Env, call: Call)
    requires call.InstallScope?
    ensures Apply(w, env, call) == InstallScopeFont(w, env, call.user,
              InfoOf(call.scope, call.srcPath, call.bundleName, call.tokenId), call.src, call.stamp, call.io)
  {
    hide InstallScopeFont;
  }

  /** Every run keeps scope records out of configs that the upgrade would still rewrite. */
  lemma {:induction false} RunKeepsVersionInv(w: World, env: Env, calls: seq<Call>)
    requires forall u: int :: VersionInv(ConfigOf(w, u))
    ensures forall u: int :: VersionInv(ConfigOf(Run(w, env, calls), u))
    decreases |calls|
  {
    hide VersionInv, Apply, OnlyUser, ConfigOf;
    if calls != [] {
      var w2 := Apply(w, env, calls[0]).1;
      OneUserPerCall(w, env, calls[0]);
      ApplyKeepsVersionInv(w, env, calls[0]);
      forall u: int ensures VersionInv(ConfigOf(w2, u)) {
        if u != calls[0].user {
          OtherConfig(w, w2, calls[0].user, u);
        }
      }
      RunKeepsVersionInv(w2, env, calls[1..]);
    }
  }

  lemma OtherConfig(w: World, w2: World, u: int, v: int)
    requires OnlyUser(w, w2, u) && u != v
    ensures ConfigOf(w2, v) == ConfigOf(w, v)
  {
    hide InstallDir;
    assert v in w2.configs <==> v in w2.configs - {u};
    assert v in w.configs <==> v in w.configs - {u};
    if v in w.configs {
      assert (w2.configs - {u})[v] == w2.configs[v] && (w.configs - {u})[v] == w.configs[v];
    }
  }
}
