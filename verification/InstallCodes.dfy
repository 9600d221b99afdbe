/**
  Which code an install answers, in terms of the font's own names and of what stands in its way.
 */
module InstallCodes {
  import opened Wrappers
  import opened Paths
  import opened FileCopy
  import opened RecordStore
  import opened FontStore
  import opened StoreInvariants
  import opened InstallTheorems
  import opened UninstallTheorems

  /** Nothing to install: the file is too large, or no name can be read from it. */
  predicate Unusable(env: Env, src: Source)
  {
    |src.content| > MAX_FONT_FILE_SIZE || env.tool(src.content) == []
  }

  lemma NamesOf(env: Env, src: Source)
    ensures FullNamesByFd(env, src.content) == if |src.content| > MAX_FONT_FILE_SIZE then [] else env.tool(src.content)
    ensures FullNamesByFd(env, src.content) == [] <==> Unusable(env, src)
  {
  }

  // ----- User-level installs -----

  /** The code of the part from the copy on. */
  lemma PlaceFontCode(w: World, env: Env, u: int, names: seq<string>, name: string, content: Bytes, io: Io)
    requires HasArray(ConfigOf(w, u)) && |Items(w, u)| < GetMaxInstallNum(env)
    requires forall it :: it in Items(w, u) ==> it.path != Some(UserFontPath(name))
    ensures PlaceFont(w, env, u, names, name, content, io).0
            == if !CopyGoesThrough(content, io) then ERR_COPY_FAIL
               else if Write(|names|) in io.failed then ERR_INSTALL_FAIL else ERR_OK
  {
    hide CopyForInstall, UserFontPath, InstallDir, RemoveTree, CopyGoesThrough, InsertUnderLimit;
    CopyExact(w.files, InstallDir(u), name, content, io);
    var (copied, files) := CopyForInstall(w.files, InstallDir(u), name, content, io);
    InsertUnderLimitExact(w.(files := files), u, UserFontPath(name), names, GetMaxInstallNum(env),
                          Write(|names|) !in io.failed);
  }

  /** Some record that has its file carries the first name that ends the stale loop. */
  ghost predicate LiveAt(w: World, u: int, names: seq<string>, s: nat, io: Io)
    requires s < |names|
  {
    exists it :: it in Items(w, u) && EndsAt(w, u, names, s, io, it) && Live(w, u, it)
  }

  lemma InstallFontCode(w: World, env: Env, u: int, src: Source, stamp: Stamp, io: Io)
    requires ConfigInv(ConfigOf(EnsureConfig(w, u), u), GetMaxInstallNum(env))
    requires Fresh(w, u, UserFontPath(DestName(stamp, src)), InstallDir(u) + [DestName(stamp, src)])
    ensures var names := env.tool(src.content);
            var s := StopAt(w, u, names, 0, io);
            InstallFont(w, env, u, src, stamp, io).0
            == if InitDir in io.failed then ERR_FILE_NOT_EXISTS
               else if Unusable(env, src) then ERR_FILE_VERIFY_FAIL
               else if s < |names| then (if LiveAt(w, u, names, s, io) then ERR_INSTALLED_ALRADY else ERR_INSTALL_FAIL)
               else if |Unnamed(Items(w, u), names)| >= GetMaxInstallNum(env) then ERR_MAX_FILE_COUNT
               else if !CopyGoesThrough(src.content, io) then ERR_COPY_FAIL
               else if Write(|names|) in io.failed then ERR_INSTALL_FAIL
               else ERR_OK
  {
    hide ConfigInv, UserFontPath, InstallDir, PlaceFont, DropStale, DestName, CopyGoesThrough, StopAt, EndsAt, Live,
        FullNamesByFd, Named, Unnamed;
    NamesOf(env, src);
    if InitDir !in io.failed && !Unusable(env, src) {
      var w1 := EnsureConfig(w, u);
      assert Items(w1, u) == Items(w, u) && w1.files == w.files;
      AfterNames(w1, env, u, src, stamp, io);
      SameStops(w, w1, u, env.tool(src.content), io);
    }
  }

  lemma SameStops(w: World, w1: World, u: int, names: seq<string>, io: Io)
    requires Items(w1, u) == Items(w, u) && w1.files == w.files
    ensures var s := StopAt(w, u, names, 0, io);
            && StopAt(w1, u, names, 0, io) == s
            && (s < |names| ==> (LiveAt(w1, u, names, s, io) <==> LiveAt(w, u, names, s, io)))
  {
    hide Matches, Place, Items, Named, Stops;
    StopsSame(w, w1, u, names, 0, io);
  }

  lemma AfterNames(w: World, env: Env, u: int, src: Source, stamp: Stamp, io: Io)
    requires ConfigInv(ConfigOf(w, u), GetMaxInstallNum(env))
    requires Fresh(w, u, UserFontPath(DestName(stamp, src)), InstallDir(u) + [DestName(stamp, src)])
    requires InitDir !in io.failed && !Unusable(env, src)
    ensures var names := env.tool(src.content);
            var s := StopAt(w, u, names, 0, io);
            InstallFont(w, env, u, src, stamp, io).0
            == if s < |names| then (if LiveAt(w, u, names, s, io) then ERR_INSTALLED_ALRADY else ERR_INSTALL_FAIL)
               else if |Unnamed(Items(w, u), names)| >= GetMaxInstallNum(env) then ERR_MAX_FILE_COUNT
               else if !CopyGoesThrough(src.content, io) then ERR_COPY_FAIL
               else if Write(|names|) in io.failed then ERR_INSTALL_FAIL
               else ERR_OK
  {
    hide RecordsInv, UserFontPath, InstallDir, PlaceFont, DropStale, DestName, CopyGoesThrough, StopAt, EndsAt, Live,
        FullNamesByFd, Named;
    NamesOf(env, src);
    var names := env.tool(src.content);
    var s := StopAt(w, u, names, 0, io);
    DropStaleExact(w, u, names, io, GetMaxInstallNum(env));
    assert s == |names| ==> names[..s] == names;
    var w1 := DropNames(w, u, names[..s]);
    UnnamedMembers(Items(w, u), names[..s]);
    assert Items(w1, u) == Unnamed(Items(w, u), names[..s]) && HasArray(ConfigOf(w1, u));
    if s == |names| && |Items(w1, u)| < GetMaxInstallNum(env) {
      PlaceFontCode(w1, env, u, names, DestName(stamp, src), src.content, io);
    }
  }

  /** A record that has its file and any of the font's names refuses the install. */
  lemma NamedRecordRefuses(w: World, env: Env, u: int, src: Source, stamp: Stamp, io: Io, it: Item, n: string)
    requires ConfigInv(ConfigOf(EnsureConfig(w, u), u), GetMaxInstallNum(env))
    requires Fresh(w, u, UserFontPath(DestName(stamp, src)), InstallDir(u) + [DestName(stamp, src)])
    requires it in Items(w, u) && Live(w, u, it) && it.names.Some? && n in it.names.value && n in env.tool(src.content)
    ensures var ret := InstallFont(w, env, u, src, stamp, io).0;
            && ret != ERR_OK
            && (InitDir !in io.failed && |src.content| <= MAX_FONT_FILE_SIZE && NoWriteFault(io) ==>
                  ret == ERR_INSTALLED_ALRADY)
  {
    var names := env.tool(src.content);
    assert Matches(it, ByName(n)) && Named(it, names);
    hide ConfigInv, UserFontPath, InstallDir, InstallFont, DestName, CopyGoesThrough, Live, Matches, Fresh, EnsureConfig;
    InstallFontCode(w, env, u, src, stamp, io);
    StopAtIs(w, u, names, 0, io);
    var s := StopAt(w, u, names, 0, io);
    if s == |names| {
      assert names[..s] == names;
      DroppedAreStale(w, u, names, s, io, it);
    }
  }

  // ----- Scope installs -----

  lemma InstallScopeCode(w: World, env: Env, u: int, info: ScopeInstall, src: Source, stamp: Stamp, io: Io)
    requires ConfigInv(ConfigOf(EnsureConfig(w, u), u), GetMaxInstallNum(env))
    ensures var items, names := Items(w, u), env.tool(src.content);
            InstallScopeFont(w, env, u, info, src, stamp, io).0
            == if info.scope != FONT_SCOPE_APP && info.scope != FONT_SCOPE_SESSION then ERR_INVALID_PARAM
               else if InitDir in io.failed then ERR_SYSTEM_ERROR
               else if exists it :: it in items && it.srcPath == Some(info.srcPath) then ERR_INSTALLED_ALRADY
               else if |items| >= GetMaxInstallNum(env) then ERR_MAX_FILE_COUNT
               else if Unusable(env, src) then ERR_FILE_VERIFY_FAIL
               else if exists it :: it in items && Named(it, names) then ERR_INSTALLED_ALRADY
               else if InitScopeDir in io.failed then ERR_SYSTEM_ERROR
               else if !CopyGoesThrough(src.content, io) then ERR_COPY_FAIL
               else if Write(1) in io.failed then ERR_SYSTEM_ERROR
               else ERR_OK
  {
    hide RecordsInv, InstallDir, PlaceScopeFont, DestName, CopyGoesThrough, ValidateScope, FullNamesByFd, Named;
    var w1 := EnsureConfig(w, u);
    assert Items(w1, u) == Items(w, u);
    ValidateScopeCode(w1, env, u, info.srcPath, src);
    PlaceScopeCode(w1, u, info, FullNamesByFd(env, src.content), DestName(stamp, src), src.content, io);
  }

  lemma ValidateScopeCode(w: World, env: Env, u: int, srcPath: string, src: Source)
    ensures var items := Items(w, u);
            ValidateScope(w, env, u, srcPath, src.content)
            == if exists it :: it in items && it.srcPath == Some(srcPath) then ERR_INSTALLED_ALRADY
               else if |items| >= GetMaxInstallNum(env) then ERR_MAX_FILE_COUNT
               else if Unusable(env, src) then ERR_FILE_VERIFY_FAIL
               else if exists it :: it in items && Named(it, env.tool(src.content)) then ERR_INSTALLED_ALRADY
               else ERR_OK
  {
    var items := Items(w, u);
    NamesOf(env, src);
    ValidateScopeExact(w, env, u, srcPath, src.content);
    hide Named, FullNamesByFd, Unusable;
    var i := First(items, ByUrl(srcPath));
    assert i < |items| ==> items[i] in items && items[i].srcPath == Some(srcPath);
    assert i == |items| ==> forall it :: it in items ==> !Matches(it, ByUrl(srcPath));
  }

  lemma PlaceScopeCode(w: World, u: int, info: ScopeInstall, names: seq<string>, name: string, content: Bytes, io: Io)
    requires HasArray(ConfigOf(w, u))
    ensures PlaceScopeFont(w, u, info, names, name, content, io).0
            == if InitScopeDir in io.failed then ERR_SYSTEM_ERROR
               else if !CopyGoesThrough(content, io) then ERR_COPY_FAIL
               else if Write(1) in io.failed then ERR_SYSTEM_ERROR else ERR_OK
  {
    hide CopyForInstall, InstallDir, RemoveTree, ScopeRecord, ConstructScopeItem;
    CopyExact(w.files, InstallDir(u) + [info.appIdentifier], name, content, io);
  }

  // ----- Configs without a list -----

  /** A config whose "fontlist" is no array, or that cannot be read, takes no user-level font. */
  lemma NoListNoUserInstall(w: World, env: Env, u: int, src: Source, stamp: Stamp, io: Io)
    requires !HasArray(ConfigOf(EnsureConfig(w, u), u))
    ensures var (ret, w2) := InstallFont(w, env, u, src, stamp, io);
            && w2.configs == w.configs
            && ret == (if InitDir in io.failed then ERR_FILE_NOT_EXISTS
                       else if Unusable(env, src) then ERR_FILE_VERIFY_FAIL
                       else if !CopyGoesThrough(src.content, io) then ERR_COPY_FAIL
                       else ERR_INSTALL_FAIL)
  {
    hide CopyForInstall, UserFontPath, InstallDir, RemoveTree, CopyGoesThrough, DestName, FullNamesByFd;
    NamesOf(env, src);
    NothingStale(w, u, FullNamesByFd(env, src.content), 0, io);
    CopyExact(w.files, InstallDir(u), DestName(stamp, src), src.content, io);
  }

  lemma {:induction false} NothingStale(w: World, u: int, names: seq<string>, k: nat, io: Io)
    requires !HasArray(ConfigOf(w, u)) && k <= |names|
    ensures DropStale(w, u, names, k, io) == (ERR_OK, w)
    decreases |names| - k
  {
    if k < |names| {
      NothingStale(w, u, names, k + 1, io);
    }
  }

  /**
    A scope font is answered with ERR_OK all the same unless the list is missing: its copy is there, and
    no record of it can be found.
   */
  lemma NoListLosesScopeFont(w: World, env: Env, u: int, info: ScopeInstall, src: Source, stamp: Stamp, io: Io)
    requires ConfigOf(w, u).Parsed? && !HasArray(ConfigOf(w, u))
    ensures var (ret, w2) := InstallScopeFont(w, env, u, info, src, stamp, io);
            && Items(w2, u) == []
            && (ret == ERR_OK <==>
                  && info.scope in {FONT_SCOPE_APP, FONT_SCOPE_SESSION}
                  && InitDir !in io.failed && InitScopeDir !in io.failed
                  && (IsCurrent(ConfigOf(w, u).versions) || Write(0) !in io.failed)
                  && !Unusable(env, src) && CopyGoesThrough(src.content, io)
                  && !ConfigOf(w, u).fonts.Missing? && Write(1) !in io.failed)
            && (ret == ERR_OK ==> InstallDir(u) + [info.appIdentifier] + [DestName(stamp, src)] in w2.files)
            && (ret == ERR_OK && ConfigOf(w, u).fonts.Object? ==>
                  ConfigOf(w2, u).fonts.Object?
                  && |ConfigOf(w2, u).fonts.members| == |ConfigOf(w, u).fonts.members| + 1)
  {
    hide CopyForInstall, InstallDir, RemoveTree, CopyGoesThrough, DestName, FullNamesByFd, IsCurrent, UpgradeVersions;
    NamesOf(env, src);
    CopyExact(w.files, InstallDir(u) + [info.appIdentifier], DestName(stamp, src), src.content, io);
  }

  /** A config that cannot be read, or an older one that cannot be updated, refuses a scope font and nothing changes. */
  lemma NoUpdateNoScopeInstall(w: World, env: Env, u: int, info: ScopeInstall, src: Source, stamp: Stamp, io: Io)
    requires info.scope in {FONT_SCOPE_APP, FONT_SCOPE_SESSION}
    requires var file := ConfigOf(w, u);
             || file.Malformed?
             || (file.Parsed? && (file.versions == [] || file.versions[0] != Text("7.0")) && Write(0) in io.failed)
    ensures InstallScopeFont(w, env, u, info, src, stamp, io) == (ERR_SYSTEM_ERROR, w)
  {
    hide PlaceScopeFont, ValidateScope, Upgrade, DestName;
  }

  /** The insertion of a user-level record, for any config, list, limit and write. */
  lemma InsertUnderLimitCode(w: World, u: int, path: string, names: seq<string>, max: int, writeOk: bool)
    ensures var items, (ret, w2) := Items(w, u), InsertUnderLimit(w, u, path, names, max, writeOk);
            && ret == (if !HasArray(ConfigOf(w, u)) then ERR_INSTALL_FAIL
                       else if exists it :: it in items && it.path == Some(path) then ERR_OK
                       else if |items| >= max then ERR_MAX_FILE_COUNT
                       else if writeOk then ERR_OK else ERR_INSTALL_FAIL)
            && (w2 != w ==> ret == ERR_OK && Items(w2, u) == items + [ConstructItem(path, names)])
  {
    var items, key := Items(w, u), ByPath(path);
    var i := First(items, key);
    assert i < |items| ==> items[i] in items && items[i].path == Some(path);
    assert forall it :: Matches(it, key) <==> it.path == Some(path);
  }

  /** A deletion takes out the first record it looks for, or fails and changes nothing. */
  lemma DeleteRecordExact(w: World, u: int, key: Key, writeOk: bool)
    ensures var items, (ok, w2) := Items(w, u), DeleteRecord(w, u, key, writeOk);
            && (ok <==> writeOk && exists it :: it in items && Matches(it, key))
            && (!ok ==> w2 == w)
            && (ok ==> w2.files == w.files
                       && exists i :: && 0 <= i < |items| && Matches(items[i], key)
                                      && (forall j :: 0 <= j < i ==> !Matches(items[j], key))
                                      && Items(w2, u) == items[..i] + items[i + 1..])
  {
    hide Matches;
    var items := Items(w, u);
    var i := First(items, key);
    assert i < |items| ==> items[i] in items && Matches(items[i], key);
    assert RemoveFirst(items, key) == if i < |items| then items[..i] + items[i + 1..] else items;
  }
}
